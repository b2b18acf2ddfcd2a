/** The part of the `treelib` package that the directory summariser relies on. A `Tree` maps
    each node identifier to the node's tag and parent, keeps for every node the identifiers of
    its children in the order they were created, and knows its root. `create_node` refuses an
    identifier that is already there (DuplicatedNodeIdError), a parent that is not
    (NodeIDAbsentError) and a second parentless node (MultipleRootError); the model states
    those refusals as preconditions. */
module TreeLib {
  import opened Py
  import Seqs

  datatype Node = Node(tag: string, parent: Option<string>)

  /** The state of a `Tree`, as a value. */
  datatype Snapshot = Snapshot(nodes: map<string, Node>, children: map<string, seq<string>>,
                               root: Option<string>)

  /** `Tree()` */
  const Empty: Snapshot := Snapshot(map[], map[], None)

  /** `[c.identifier for c in tree.children(nid)]`, empty for an identifier without a node. */
  function ChildList(t: Snapshot, id: string): seq<string> {
    if id in t.children then t.children[id] else []
  }

  /** What every tree built by `create_node` satisfies: each node has a child list; the root is
      the one node without a parent; a node is listed among its parent's children, and only
      there, once. */
  ghost predicate Valid(t: Snapshot) {
    t.children.Keys == t.nodes.Keys && RootOk(t) && ParentsList(t) && ChildrenPoint(t)
    && ListsDistinct(t)
  }

  ghost predicate RootOk(t: Snapshot) {
    && (t.root.None? ==> t.nodes.Keys == {})
    && (t.root.Some? ==> t.root.value in t.nodes)
    && (forall x :: x in t.nodes ==> (t.nodes[x].parent.None? <==> t.root == Some(x)))
  }

  ghost predicate ParentsList(t: Snapshot) {
    forall x :: x in t.nodes && t.nodes[x].parent.Some? ==>
      t.nodes[x].parent.value in t.nodes && x in ChildList(t, t.nodes[x].parent.value)
  }

  ghost predicate ChildrenPoint(t: Snapshot) {
    forall x, y :: x in t.children && y in t.children[x] ==> y in t.nodes && t.nodes[y].parent == Some(x)
  }

  ghost predicate ListsDistinct(t: Snapshot) {
    forall x :: x in t.children ==> Seqs.Distinct(t.children[x])
  }

  /** `create_node` succeeds: a new identifier, and a parent that exists, or no parent and no
      root yet. */
  predicate CanCreate(t: Snapshot, id: string, parent: Option<string>) {
    && id !in t.nodes
    && match parent
       case None => t.root.None?
       case Some(p) => p in t.nodes
  }

  /** The tree after `create_node(tag, id, parent=parent)`. */
  function Created(t: Snapshot, tag: string, id: string, parent: Option<string>): Snapshot {
    var children := match parent
      case None => t.children
      case Some(p) => t.children[p := ChildList(t, p) + [id]];
    Snapshot(t.nodes[id := Node(tag, parent)], children[id := []],
             if parent.None? then Some(id) else t.root)
  }

  /** What `create_node` changes: it adds exactly the new node, which has no children yet and
      comes last among its parent's children; no other node and no other child list changes. */
  lemma CreatedShape(t: Snapshot, tag: string, id: string, parent: Option<string>)
    requires t.children.Keys == t.nodes.Keys && CanCreate(t, id, parent)
    ensures var r := Created(t, tag, id, parent);
      && r.children.Keys == r.nodes.Keys
      && r.nodes.Keys == t.nodes.Keys + {id}
      && r.nodes[id] == Node(tag, parent)
      && (forall x :: x in t.nodes ==> r.nodes[x] == t.nodes[x])
      && ChildList(r, id) == []
      && (parent.Some? ==> ChildList(r, parent.value) == ChildList(t, parent.value) + [id])
      && (forall x :: x != id && parent != Some(x) ==> ChildList(r, x) == ChildList(t, x))
      && r.root == (if parent.None? then Some(id) else t.root)
  {
  }

  /** A successful `create_node` keeps the tree valid. */
  lemma CreatedValid(t: Snapshot, tag: string, id: string, parent: Option<string>)
    requires Valid(t) && CanCreate(t, id, parent)
    ensures Valid(Created(t, tag, id, parent))
  {
    CreatedRootOk(t, tag, id, parent);
    CreatedParentsList(t, tag, id, parent);
    CreatedChildrenPoint(t, tag, id, parent);
    CreatedListsDistinct(t, tag, id, parent);
  }

  lemma CreatedRootOk(t: Snapshot, tag: string, id: string, parent: Option<string>)
    requires RootOk(t) && CanCreate(t, id, parent)
    ensures RootOk(Created(t, tag, id, parent))
  {
  }

  lemma CreatedParentsList(t: Snapshot, tag: string, id: string, parent: Option<string>)
    requires t.children.Keys == t.nodes.Keys && ParentsList(t) && CanCreate(t, id, parent)
    ensures ParentsList(Created(t, tag, id, parent))
  {
    var r := Created(t, tag, id, parent);
    forall x | x in r.nodes && r.nodes[x].parent.Some?
      ensures r.nodes[x].parent.value in r.nodes && x in ChildList(r, r.nodes[x].parent.value)
    {
      if x == id {
        assert ChildList(r, parent.value) == ChildList(t, parent.value) + [id];
      } else {
        var p := t.nodes[x].parent.value;
        assert r.nodes[x] == t.nodes[x];
        assert x in ChildList(t, p);
        if parent == Some(p) {
          assert ChildList(r, p) == ChildList(t, p) + [id];
        } else {
          assert p != id;
          assert ChildList(r, p) == ChildList(t, p);
        }
      }
    }
  }

  lemma CreatedChildrenPoint(t: Snapshot, tag: string, id: string, parent: Option<string>)
    requires t.children.Keys == t.nodes.Keys && ChildrenPoint(t) && CanCreate(t, id, parent)
    ensures ChildrenPoint(Created(t, tag, id, parent))
  {
    var r := Created(t, tag, id, parent);
    forall x, y | x in r.children && y in r.children[x]
      ensures y in r.nodes && r.nodes[y].parent == Some(x)
    {
      if x != id && parent == Some(x) {
        assert r.children[x] == t.children[x] + [id];
        if y != id {
          assert y in t.children[x];
        }
      } else if x != id {
        assert r.children[x] == t.children[x];
      }
    }
  }

  lemma CreatedListsDistinct(t: Snapshot, tag: string, id: string, parent: Option<string>)
    requires t.children.Keys == t.nodes.Keys && ChildrenPoint(t) && ListsDistinct(t)
    requires CanCreate(t, id, parent)
    ensures ListsDistinct(Created(t, tag, id, parent))
  {
    var r := Created(t, tag, id, parent);
    forall x | x in r.children ensures Seqs.Distinct(r.children[x]) {
      if x == id {
        assert r.children[x] == [];
      } else if parent == Some(x) {
        var before := t.children[x];
        assert forall y :: y in before ==> y in t.nodes;
        Seqs.DistinctSnoc(before, id);
        assert r.children[x] == before + [id];
      } else {
        assert r.children[x] == t.children[x];
      }
    }
  }

  /** One `create_node` call with a parent, as the directory walk issues them. */
  datatype Create = Create(tag: string, id: string, parent: string)

  function Apply(t: Snapshot, op: Create): Snapshot {
    Created(t, op.tag, op.id, Some(op.parent))
  }

  /** The tree after the calls `ops`, in order. */
  function ApplyAll(t: Snapshot, ops: seq<Create>): Snapshot
    decreases |ops|
  {
    if ops == [] then t else ApplyAll(Apply(t, ops[0]), ops[1..])
  }

  /** Every call in `ops` succeeds when they are made in order. */
  ghost predicate Applicable(t: Snapshot, ops: seq<Create>)
    decreases |ops|
  {
    ops == [] || (CanCreate(t, ops[0].id, Some(ops[0].parent)) && Applicable(Apply(t, ops[0]), ops[1..]))
  }

  /** The identifiers the calls create. */
  function Ids(ops: seq<Create>): (r: seq<string>)
    ensures |r| == |ops| && forall i :: 0 <= i < |ops| ==> r[i] == ops[i].id
  {
    if ops == [] then [] else [ops[0].id] + Ids(ops[1..])
  }

  /** The identifiers the calls attach under `x`, in call order. */
  function ChildIds(ops: seq<Create>, x: string): (r: seq<string>)
    ensures forall y :: y in r ==> y in Ids(ops)
  {
    if ops == [] then []
    else (if ops[0].parent == x then [ops[0].id] else []) + ChildIds(ops[1..], x)
  }

  /** Every parent is known, and every identifier is new, when the calls are made in order
      starting from the identifiers `known`. */
  ghost predicate Scoped(known: set<string>, ops: seq<Create>)
    decreases |ops|
  {
    ops == [] || (ops[0].parent in known && ops[0].id !in known && Scoped(known + {ops[0].id}, ops[1..]))
  }

  lemma {:induction false} IdsAppend(a: seq<Create>, b: seq<Create>)
    ensures Ids(a + b) == Ids(a) + Ids(b)
  {
  }

  lemma {:induction false} ChildIdsAppend(a: seq<Create>, b: seq<Create>, x: string)
    ensures ChildIds(a + b, x) == ChildIds(a, x) + ChildIds(b, x)
  {
    if a == [] {
      assert a + b == b;
    } else {
      ChildIdsAppend(a[1..], b, x);
      assert (a + b)[0] == a[0] && (a + b)[1..] == a[1..] + b;
      Seqs.AppendAssoc(if a[0].parent == x then [a[0].id] else [], ChildIds(a[1..], x), ChildIds(b, x));
    }
  }

  /** No call attaches anything under a node that is nobody's parent in them. */
  lemma {:induction false} ChildIdsNone(ops: seq<Create>, x: string)
    requires forall i :: 0 <= i < |ops| ==> ops[i].parent != x
    ensures ChildIds(ops, x) == []
  {
    if ops != [] {
      ChildIdsNone(ops[1..], x);
    }
  }

  /** The first call, then the others. */
  lemma ApplyCons(t: Snapshot, op: Create, rest: seq<Create>)
    ensures ApplyAll(t, [op] + rest) == ApplyAll(Apply(t, op), rest)
    ensures Applicable(t, [op] + rest) <==> CanCreate(t, op.id, Some(op.parent)) && Applicable(Apply(t, op), rest)
  {
    assert ([op] + rest)[0] == op && ([op] + rest)[1..] == rest;
  }

  /** One call, then one batch, then another. */
  lemma ApplyConsAppend(t: Snapshot, op: Create, a: seq<Create>, b: seq<Create>)
    ensures ApplyAll(t, [op] + (a + b)) == ApplyAll(ApplyAll(Apply(t, op), a), b)
    ensures Applicable(t, [op] + (a + b)) <==>
      && CanCreate(t, op.id, Some(op.parent))
      && Applicable(Apply(t, op), a)
      && Applicable(ApplyAll(Apply(t, op), a), b)
  {
    ApplyCons(t, op, a + b);
    ApplyAppend(Apply(t, op), a, b);
  }

  /** Calls made one batch after another. */
  lemma {:induction false} ApplyAppend(t: Snapshot, a: seq<Create>, b: seq<Create>)
    ensures ApplyAll(t, a + b) == ApplyAll(ApplyAll(t, a), b)
    ensures Applicable(t, a + b) <==> Applicable(t, a) && Applicable(ApplyAll(t, a), b)
    decreases |a|
  {
    if a == [] {
      assert a + b == b;
    } else {
      assert (a + b)[0] == a[0] && (a + b)[1..] == a[1..] + b;
      ApplyAppend(Apply(t, a[0]), a[1..], b);
    }
  }

  /** Whether the calls succeed depends only on which identifiers exist: they succeed exactly
      when each names a parent that exists by then and an identifier that does not. */
  lemma {:induction false} ApplicableScoped(t: Snapshot, ops: seq<Create>)
    ensures Applicable(t, ops) <==> Scoped(t.nodes.Keys, ops)
    decreases |ops|
  {
    if ops != [] {
      var r := Apply(t, ops[0]);
      assert r.nodes.Keys == t.nodes.Keys + {ops[0].id};
      ApplicableScoped(r, ops[1..]);
    }
  }

  /** The identifiers the calls create, as a set. */
  function IdSet(ops: seq<Create>): set<string> {
    if ops == [] then {} else {ops[0].id} + IdSet(ops[1..])
  }

  lemma {:induction false} IdSetMembers(ops: seq<Create>)
    ensures forall y :: y in IdSet(ops) <==> y in Ids(ops)
  {
    if ops != [] {
      IdSetMembers(ops[1..]);
      assert Ids(ops) == [ops[0].id] + Ids(ops[1..]);
    }
  }

  /** The calls create pairwise different identifiers, none of them in `known`. */
  ghost predicate Fresh(known: set<string>, ops: seq<Create>) {
    Seqs.Distinct(Ids(ops)) && forall y :: y in Ids(ops) ==> y !in known
  }

  /** Fresh identifiers split over two batches: the second batch's are also new to the first. */
  lemma FreshSplit(known: set<string>, a: seq<Create>, b: seq<Create>)
    requires Fresh(known, a + b)
    ensures Fresh(known, a) && Fresh(known + IdSet(a), b)
  {
    IdsAppend(a, b);
    Seqs.DistinctAppend(Ids(a), Ids(b));
    IdSetMembers(a);
  }

  /** Two batches are scoped one after the other when the second is scoped by what exists
      after the first. */
  lemma {:induction false} ScopedAppend(known: set<string>, a: seq<Create>, b: seq<Create>)
    requires Scoped(known, a) && Scoped(known + IdSet(a), b)
    ensures Scoped(known, a + b)
    decreases |a|
  {
    if a == [] {
      assert a + b == b;
      assert known + IdSet(a) == known;
    } else {
      var next := known + {a[0].id};
      assert known + IdSet(a) == next + IdSet(a[1..]);
      ScopedAppend(next, a[1..], b);
      ScopedCons(known, a[0], a[1..] + b);
      assert a + b == [a[0]] + (a[1..] + b);
    }
  }

  /** A first call that is scoped, followed by calls scoped once its node exists. */
  lemma FreshCons(known: set<string>, op: Create, rest: seq<Create>)
    requires Fresh(known, [op] + rest)
    ensures op.id !in known && Fresh(known + {op.id}, rest)
  {
    FreshSplit(known, [op], rest);
    assert IdSet([op]) == {op.id};
    assert Ids([op]) == [op.id];
  }

  lemma ScopedCons(known: set<string>, op: Create, rest: seq<Create>)
    requires op.parent in known && op.id !in known && Scoped(known + {op.id}, rest)
    ensures Scoped(known, [op] + rest)
  {
    assert ([op] + rest)[0] == op && ([op] + rest)[1..] == rest;
  }

  /** Calls that all attach under one existing node, with fresh identifiers, are scoped. */
  lemma {:induction false} SiblingsScoped(known: set<string>, ops: seq<Create>, x: string)
    requires x in known && Fresh(known, ops)
    requires forall i :: 0 <= i < |ops| ==> ops[i].parent == x
    ensures Scoped(known, ops)
    decreases |ops|
  {
    if ops != [] {
      FreshSplit(known, [ops[0]], ops[1..]);
      assert [ops[0]] + ops[1..] == ops;
      assert IdSet([ops[0]]) == {ops[0].id};
      SiblingsScoped(known + {ops[0].id}, ops[1..], x);
    }
  }

  /** Calls that succeed keep the tree valid. */
  lemma {:induction false} ApplyValid(t: Snapshot, ops: seq<Create>)
    requires Valid(t) && Applicable(t, ops)
    ensures Valid(ApplyAll(t, ops))
    decreases |ops|
  {
    if ops != [] {
      CreatedValid(t, ops[0].tag, ops[0].id, Some(ops[0].parent));
      ApplyValid(Apply(t, ops[0]), ops[1..]);
    }
  }

  /** Calls that succeed add exactly their identifiers, one node each, and leave the root and
      the nodes that were there alone. */
  lemma {:induction false} ApplyKeeps(t: Snapshot, ops: seq<Create>)
    requires Applicable(t, ops)
    ensures var r := ApplyAll(t, ops);
      && r.root == t.root
      && (forall x :: x in r.nodes <==> x in t.nodes || x in Ids(ops))
      && |r.nodes| == |t.nodes| + |ops|
      && (forall x :: x in t.nodes ==> r.nodes[x] == t.nodes[x])
    decreases |ops|
  {
    if ops != [] {
      var s := Apply(t, ops[0]);
      ApplyKeeps(s, ops[1..]);
      assert Ids(ops) == [ops[0].id] + Ids(ops[1..]);
      assert s.nodes.Keys == t.nodes.Keys + {ops[0].id};
      assert |s.nodes| == |t.nodes| + 1;
    }
  }

  /** After calls that succeed, every node they created has the tag and parent its call
      named. */
  lemma {:induction false} ApplyNodes(t: Snapshot, ops: seq<Create>)
    requires Applicable(t, ops)
    ensures var r := ApplyAll(t, ops);
      forall i :: 0 <= i < |ops| ==>
        ops[i].id in r.nodes && r.nodes[ops[i].id] == Node(ops[i].tag, Some(ops[i].parent))
    decreases |ops|
  {
    if ops != [] {
      var s := Apply(t, ops[0]);
      ApplyNodes(s, ops[1..]);
      ApplyKeeps(s, ops[1..]);
      assert ops[0].id in s.nodes;
      forall i | 1 <= i < |ops| ensures ops[i] == ops[1..][i - 1] {}
    }
  }

  /** After calls that succeed, a node's children are the ones it had, followed by the ones
      the calls attached under it, in call order. */
  lemma {:induction false} ApplyChildren(t: Snapshot, ops: seq<Create>, x: string)
    requires t.children.Keys == t.nodes.Keys && Applicable(t, ops)
    ensures ChildList(ApplyAll(t, ops), x) == ChildList(t, x) + ChildIds(ops, x)
    decreases |ops|
  {
    if ops != [] {
      var s := Apply(t, ops[0]);
      assert s.children.Keys == s.nodes.Keys;
      ApplyChildren(s, ops[1..], x);
      if ops[0].id == x {
        assert ChildList(s, x) == [];
        assert ChildList(t, x) == [];
        assert ops[0].parent != x;
      } else if ops[0].parent == x {
        assert ChildList(s, x) == ChildList(t, x) + [ops[0].id];
        Seqs.AppendAssoc(ChildList(t, x), [ops[0].id], ChildIds(ops[1..], x));
      } else {
        assert ChildList(s, x) == ChildList(t, x);
      }
    }
  }

  /** Every call attaches under `x` or under a node an earlier or later call of the batch
      creates. */
  ghost predicate Closed(ops: seq<Create>, x: string) {
    forall i :: 0 <= i < |ops| ==> ops[i].parent == x || ops[i].parent in Ids(ops)
  }

  /** A batch closed under `x` attaches nothing under a node that is neither `x` nor its own. */
  lemma ClosedNone(ops: seq<Create>, x: string, y: string)
    requires Closed(ops, x) && y != x && y !in Ids(ops)
    ensures ChildIds(ops, y) == []
  {
    ChildIdsNone(ops, y);
  }

  lemma ClosedAppend(a: seq<Create>, b: seq<Create>, x: string)
    requires Closed(a, x) && Closed(b, x)
    ensures Closed(a + b, x)
  {
    IdsAppend(a, b);
    var s := a + b;
    forall i | 0 <= i < |s| ensures s[i].parent == x || s[i].parent in Ids(s) {
      if i < |a| {
        assert s[i] == a[i];
      } else {
        assert s[i] == b[i - |a|];
      }
    }
  }

  lemma ClosedCons(op: Create, rest: seq<Create>, x: string)
    requires op.parent == x && Closed(rest, op.id)
    ensures Closed([op] + rest, x)
  {
    var s := [op] + rest;
    assert Ids(s) == [op.id] + Ids(rest);
    forall i | 0 <= i < |s| ensures s[i].parent == x || s[i].parent in Ids(s) {
      if i > 0 {
        assert s[i] == rest[i - 1];
      }
    }
  }

  /** Calls that all attach under `x` attach, under `x`, exactly their own identifiers. */
  lemma {:induction false} ChildIdsAll(ops: seq<Create>, x: string)
    requires forall i :: 0 <= i < |ops| ==> ops[i].parent == x
    ensures ChildIds(ops, x) == Ids(ops)
  {
    if ops != [] {
      ChildIdsAll(ops[1..], x);
    }
  }

  /** Two batches with pairwise different identifiers together share none. */
  lemma DisjointIds(a: seq<Create>, b: seq<Create>)
    requires Seqs.Distinct(Ids(a + b))
    ensures Seqs.Distinct(Ids(a)) && Seqs.Distinct(Ids(b))
    ensures forall y :: y in Ids(a) ==> y !in Ids(b)
  {
    IdsAppend(a, b);
    Seqs.DistinctAppend(Ids(a), Ids(b));
    IdSetMembers(a);
  }

  /** The tree holds each node of the batch with the call's tag and exactly the children the
      batch attaches under it. */
  ghost predicate Exact(t: Snapshot, ops: seq<Create>) {
    forall i :: 0 <= i < |ops| ==> ExactAt(t, ops, i)
  }

  ghost predicate ExactAt(t: Snapshot, ops: seq<Create>, i: int)
    requires 0 <= i < |ops|
  {
    ops[i].id in t.nodes && t.nodes[ops[i].id].tag == ops[i].tag && ChildList(t, ops[i].id) == ChildIds(ops, ops[i].id)
  }

  /** The calls `ops` made under the node `x` are what `t` holds below `x`: their identifiers
      are new and pairwise different, each of their nodes has its tag and exactly the children
      the calls attached under it, and so does `x`. */
  ghost predicate BuiltUnder(t: Snapshot, x: string, ops: seq<Create>) {
    Seqs.Distinct(Ids(ops)) && x !in Ids(ops) && Exact(t, ops) && ChildList(t, x) == ChildIds(ops, x)
  }

  /** The second half of a batch is exact when the first attaches nothing under its nodes. */
  lemma ExactRight(t: Snapshot, a: seq<Create>, b: seq<Create>, x: string)
    requires Exact(t, a + b) && Closed(a, x)
    requires forall y :: y in Ids(b) ==> y != x && y !in Ids(a)
    ensures Exact(t, b)
  {
    forall i | 0 <= i < |b| ensures ExactAt(t, b, i) {
      assert ExactAt(t, a + b, |a| + i);
      assert (a + b)[|a| + i] == b[i];
      assert Ids(b)[i] == b[i].id && b[i].id in Ids(b);
      ChildIdsAppend(a, b, b[i].id);
      ClosedNone(a, x, b[i].id);
    }
  }

  /** The first half of a batch is exact when the second attaches nothing under its nodes. */
  lemma ExactLeft(t: Snapshot, a: seq<Create>, b: seq<Create>, x: string)
    requires Exact(t, a + b) && Closed(b, x)
    requires forall y :: y in Ids(a) ==> y != x && y !in Ids(b)
    ensures Exact(t, a)
  {
    forall i | 0 <= i < |a| ensures ExactAt(t, a, i) {
      assert ExactAt(t, a + b, i);
      assert (a + b)[i] == a[i];
      assert Ids(a)[i] == a[i].id && a[i].id in Ids(a);
      ChildIdsAppend(a, b, a[i].id);
      ClosedNone(b, x, a[i].id);
    }
  }

  /** A node under `x`, the calls below it, then further calls: fresh identifiers split. */
  lemma SegmentIds(node: Create, inner: seq<Create>, rest: seq<Create>, x: string)
    requires Seqs.Distinct(Ids([node] + inner + rest)) && x !in Ids([node] + inner + rest)
    ensures Seqs.Distinct(Ids(inner)) && node.id !in Ids(inner) && node.id != x
    ensures Seqs.Distinct(Ids(rest)) && x !in Ids(rest)
    ensures forall y :: y in Ids([node] + inner) ==> y != x && y !in Ids(rest)
    ensures forall y :: y in Ids(rest) ==> y != x && y !in Ids([node] + inner)
    ensures forall y :: y in Ids(inner) ==> y != x && y !in Ids([node])
  {
    IdsAppend([node] + inner, rest);
    DisjointIds([node] + inner, rest);
    IdsAppend([node], inner);
    DisjointIds([node], inner);
    assert Ids([node]) == [node.id];
  }

  /** A node under `x`, the calls below it, then further calls under `x`: when the tree holds
      all of them exactly, it holds each part exactly, and the node has the inner calls'
      children. */
  lemma SegmentExact(t: Snapshot, node: Create, inner: seq<Create>, rest: seq<Create>, x: string)
    requires node.parent == x && Closed(inner, node.id) && Closed(rest, x)
    requires Seqs.Distinct(Ids([node] + inner + rest)) && x !in Ids([node] + inner + rest)
    requires Exact(t, [node] + inner + rest)
    ensures node.id in t.nodes && t.nodes[node.id].tag == node.tag
    ensures ChildList(t, node.id) == ChildIds(inner, node.id)
    ensures Exact(t, inner) && Exact(t, rest)
  {
    var seg := [node] + inner;
    SegmentIds(node, inner, rest, x);
    ClosedCons(node, inner, x);
    ExactLeft(t, seg, rest, x);
    ExactRight(t, seg, rest, x);
    assert Closed([node], x) by {
      assert [node][0] == node;
    }
    ExactRight(t, [node], inner, x);
    assert ExactAt(t, seg, 0);
    assert seg[0] == node;
    ChildIdsAppend([node], inner, node.id);
  }

  /** Calls under `x` followed by calls closed under `x`: the first batch's nodes are leaves and
      the second batch is held exactly. */
  lemma LevelExact(t: Snapshot, a: seq<Create>, b: seq<Create>, x: string)
    requires forall i :: 0 <= i < |a| ==> a[i].parent == x
    requires Closed(b, x) && Seqs.Distinct(Ids(a + b)) && x !in Ids(a + b) && Exact(t, a + b)
    ensures forall i :: 0 <= i < |a| ==>
      a[i].id in t.nodes && t.nodes[a[i].id].tag == a[i].tag && ChildList(t, a[i].id) == []
    ensures Seqs.Distinct(Ids(b)) && x !in Ids(b) && Exact(t, b)
  {
    IdsAppend(a, b);
    DisjointIds(a, b);
    assert Closed(a, x);
    ExactLeft(t, a, b, x);
    ExactRight(t, a, b, x);
    forall i | 0 <= i < |a|
      ensures a[i].id in t.nodes && t.nodes[a[i].id].tag == a[i].tag && ChildList(t, a[i].id) == []
    {
      assert ExactAt(t, a, i);
      assert Ids(a)[i] == a[i].id;
      ChildIdsNone(a, a[i].id);
    }
  }

  /** A `Tree` object: node table, child lists and root, updated in place by `create_node`. */
  class Tree {
    var nodes: map<string, Node>
    var children: map<string, seq<string>>
    var root: Option<string>

    function Model(): Snapshot
      reads this
    {
      Snapshot(nodes, children, root)
    }

    /** `Tree()`: no nodes and no root. */
    constructor ()
      ensures Model() == Empty
    {
      nodes, children, root := map[], map[], None;
    }

    /** `create_node(tag, identifier, parent=parent)` */
    method CreateNode(tag: string, id: string, parent: Option<string>)
      requires CanCreate(Model(), id, parent)
      modifies this
      ensures Model() == Created(old(Model()), tag, id, parent)
    {
      match parent {
        case None =>
          root := Some(id);
        case Some(p) =>
          children := children[p := ChildList(Model(), p) + [id]];
      }
      nodes := nodes[id := Node(tag, parent)];
      children := children[id := []];
    }
  }
}
