/** Canonicalising JavaScript objects as they are in memory: a finite heap of arrays and plain objects that may share
    and even contain one another.  The traversal keeps the set of ancestors to detect cycles.
 */
module ObjectGraph {
  import opened Bytes
  import opened JsText
  import opened Signer

  type Id = nat

  type LeafValue = v: Json | !v.Arr? && !v.Obj? witness Null

  /** What a variable, array element or property holds. */
  datatype Slot = Leaf(v: LeafValue) | Ref(id: Id)

  datatype Node = ArrayNode(items: seq<Slot>) | ObjectNode(members: seq<Member<Slot>>)

  type Heap = map<Id, Node>

  predicate Allocated(heap: Heap, s: Slot) {
    s.Ref? ==> s.id in heap
  }

  ghost predicate Holds(node: Node, s: Slot) {
    match node
    case ArrayNode(items) => s in items
    case ObjectNode(members) => exists m :: m in members && m.value == s
  }

  /** No dangling references. */
  ghost predicate Closed(heap: Heap) {
    forall id, s :: id in heap && Holds(heap[id], s) ==> Allocated(heap, s)
  }

  // ---------- The traversal ----------

  lemma SortedSlotsInside(members: seq<Member<Slot>>)
    ensures forall m :: m in SortMembers(members) <==> m in members
  {
    forall m
      ensures m in SortMembers(members) <==> m in members
    {
      assert m in SortMembers(members) <==> m in multiset(SortMembers(members));
      assert m in members <==> m in multiset(members);
    }
  }

  ghost predicate AllAllocated(heap: Heap, items: seq<Slot>) {
    forall i :: 0 <= i < |items| ==> Allocated(heap, items[i])
  }

  ghost predicate AllMembersAllocated(heap: Heap, members: seq<Member<Slot>>) {
    forall i :: 0 <= i < |members| ==> Allocated(heap, members[i].value)
  }

  lemma ChildrenAllocated(heap: Heap, id: Id)
    requires Closed(heap) && id in heap
    ensures heap[id].ArrayNode? ==> AllAllocated(heap, heap[id].items)
    ensures heap[id].ObjectNode? ==> AllMembersAllocated(heap, SortMembers(heap[id].members))
  {
    var node := heap[id];
    if node.ArrayNode? {
      assert forall i :: 0 <= i < |node.items| ==> Holds(node, node.items[i]);
    } else {
      SortedSlotsInside(node.members);
      var ms := SortMembers(node.members);
      forall i | 0 <= i < |ms|
        ensures Allocated(heap, ms[i].value)
      {
        assert ms[i] in ms;
        assert Holds(node, ms[i].value);
      }
    }
  }

  /** serializeValue, given the objects on the recursion stack.  It ends because each object entered leaves fewer
      outside the stack. */
  ghost function Serialize(heap: Heap, s: Slot, ancestors: set<Id>): Printed
    requires Closed(heap) && Allocated(heap, s)
    decreases heap.Keys - ancestors, 1, 0
  {
    match s
    case Leaf(v) => PrintLeaf(v)
    case Ref(id) =>
      if id in ancestors then Err(Circular)
      else
        ChildrenAllocated(heap, id);
        SerializeNode(heap, heap[id], ancestors + {id}, ancestors)
  }

  ghost function SerializeNode(heap: Heap, node: Node, inside: set<Id>, outside: set<Id>): Printed
    requires Closed(heap)
    requires heap.Keys - inside < heap.Keys - outside
    requires node.ArrayNode? ==> AllAllocated(heap, node.items)
    requires node.ObjectNode? ==> AllMembersAllocated(heap, SortMembers(node.members))
    decreases heap.Keys - outside, 0, 0
  {
    match node
    case ArrayNode(items) =>
      var texts := SerializeItems(heap, items, inside);
      if texts.Err? then Err(texts.error) else Ok([OPEN_ARRAY] + Join(texts.value) + [CLOSE_ARRAY])
    case ObjectNode(members) =>
      var texts := SerializeMembers(heap, SortMembers(members), inside);
      if texts.Err? then Err(texts.error) else Ok([OPEN_OBJECT] + Join(texts.value) + [CLOSE_OBJECT])
  }

  ghost function SerializeItems(heap: Heap, items: seq<Slot>, ancestors: set<Id>): Result<seq<JsString>, CanonError>
    requires Closed(heap) && AllAllocated(heap, items)
    decreases heap.Keys - ancestors, 2, |items|
  {
    if items == [] then Ok([])
    else
      var first := Serialize(heap, items[0], ancestors);
      if first.Err? then Err(first.error)
      else
        var rest := SerializeItems(heap, items[1..], ancestors);
        if rest.Err? then rest else Ok([first.value] + rest.value)
  }

  ghost function SerializeMembers(heap: Heap, members: seq<Member<Slot>>, ancestors: set<Id>): Result<seq<JsString>, CanonError>
    requires Closed(heap) && AllMembersAllocated(heap, members)
    decreases heap.Keys - ancestors, 2, |members|
  {
    if members == [] then Ok([])
    else if members[0].value == Leaf(Unsupported(Undefined)) then Err(UndefinedMember(members[0].key))
    else
      var first := Serialize(heap, members[0].value, ancestors);
      if first.Err? then Err(first.error)
      else
        var rest := SerializeMembers(heap, members[1..], ancestors);
        if rest.Err? then rest else Ok([Quoted(members[0].key) + [COLON] + first.value] + rest.value)
  }

  /** The mutable set of ancestors, shared by all calls of one traversal. */
  class Ancestors {
    var ids: set<Id>

    constructor ()
      ensures ids == {}
    {
      ids := {};
    }
  }

  /** What remains to be printed, put after what has been. */
  ghost function After(done: seq<JsString>, rest: Result<seq<JsString>, CanonError>): Result<seq<JsString>, CanonError> {
    if rest.Err? then rest else Ok(done + rest.value)
  }

  lemma AfterNothing(r: Result<seq<JsString>, CanonError>)
    ensures After([], r) == r
  {
    if r.Ok? {
      assert [] + r.value == r.value;
    }
  }

  lemma AfterOne(done: seq<JsString>, text: JsString, rest: Result<seq<JsString>, CanonError>)
    ensures After(done, if rest.Err? then rest else Ok([text] + rest.value)) == After(done + [text], rest)
  {
    if rest.Ok? {
      assert done + ([text] + rest.value) == done + [text] + rest.value;
    }
  }

  method SerializeValue(heap: Heap, s: Slot, ancestors: Ancestors) returns (out: Printed)
    requires Closed(heap) && Allocated(heap, s)
    modifies ancestors
    ensures ancestors.ids == old(ancestors.ids)
    ensures out == Serialize(heap, s, old(ancestors.ids))
    decreases heap.Keys - ancestors.ids, 1
  {
    match s
    case Leaf(v) => return PrintLeaf(v);
    case Ref(id) =>
      if id in ancestors.ids {
        return Err(Circular);
      }
      ghost var outside := ancestors.ids;
      ancestors.ids := ancestors.ids + {id};
      ChildrenAllocated(heap, id);
      assert id in heap.Keys - outside && id !in heap.Keys - ancestors.ids;
      match heap[id] {
        case ArrayNode(items) =>
          var texts := SerializeElements(heap, items, ancestors, outside);
          out := if texts.Err? then Err(texts.error) else Ok([OPEN_ARRAY] + Join(texts.value) + [CLOSE_ARRAY]);
        case ObjectNode(members) =>
          var texts := SerializeProperties(heap, SortMembers(members), ancestors, outside);
          out := if texts.Err? then Err(texts.error) else Ok([OPEN_OBJECT] + Join(texts.value) + [CLOSE_OBJECT]);
      }
      ancestors.ids := ancestors.ids - {id};
      assert ancestors.ids == outside;
  }

  method SerializeElements(heap: Heap, items: seq<Slot>, ancestors: Ancestors, ghost outside: set<Id>)
    returns (texts: Result<seq<JsString>, CanonError>)
    requires Closed(heap) && AllAllocated(heap, items)
    requires heap.Keys - ancestors.ids < heap.Keys - outside
    modifies ancestors
    ensures ancestors.ids == old(ancestors.ids)
    ensures texts == SerializeItems(heap, items, ancestors.ids)
    decreases heap.Keys - outside, 0
  {
    ghost var inside := ancestors.ids;
    var done := [];
    assert items[0..] == items;
    AfterNothing(SerializeItems(heap, items, inside));
    for i := 0 to |items|
      invariant ancestors.ids == inside
      invariant SerializeItems(heap, items, inside) == After(done, SerializeItems(heap, items[i..], inside))
    {
      var text := SerializeValue(heap, items[i], ancestors);
      assert items[i..][1..] == items[i + 1..];
      if text.Err? {
        return Err(text.error);
      }
      AfterOne(done, text.value, SerializeItems(heap, items[i + 1..], inside));
      done := done + [text.value];
    }
    assert SerializeItems(heap, items[|items|..], inside) == Ok([]) && done + [] == done;
    texts := Ok(done);
  }

  method SerializeProperties(heap: Heap, members: seq<Member<Slot>>, ancestors: Ancestors, ghost outside: set<Id>)
    returns (texts: Result<seq<JsString>, CanonError>)
    requires Closed(heap) && AllMembersAllocated(heap, members)
    requires heap.Keys - ancestors.ids < heap.Keys - outside
    modifies ancestors
    ensures ancestors.ids == old(ancestors.ids)
    ensures texts == SerializeMembers(heap, members, ancestors.ids)
    decreases heap.Keys - outside, 0
  {
    ghost var inside := ancestors.ids;
    var done := [];
    assert members[0..] == members;
    AfterNothing(SerializeMembers(heap, members, inside));
    for i := 0 to |members|
      invariant ancestors.ids == inside
      invariant SerializeMembers(heap, members, inside) == After(done, SerializeMembers(heap, members[i..], inside))
    {
      var m := members[i];
      assert members[i..][0] == m && members[i..][1..] == members[i + 1..];
      if m.value == Leaf(Unsupported(Undefined)) {
        return Err(UndefinedMember(m.key));
      }
      var key := SerializeString(m.key);
      var text := SerializeValue(heap, m.value, ancestors);
      if text.Err? {
        return Err(text.error);
      }
      AfterOne(done, key + [COLON] + text.value, SerializeMembers(heap, members[i + 1..], inside));
      done := done + [key + [COLON] + text.value];
    }
    assert SerializeMembers(heap, members[|members|..], inside) == Ok([]) && done + [] == done;
    texts := Ok(done);
  }

  /** canonicalize on an object graph. */
  method CanonicalizeGraph(heap: Heap, root: Slot) returns (out: Printed)
    requires Closed(heap) && Allocated(heap, root)
    ensures out == Serialize(heap, root, {})
  {
    var ancestors := new Ancestors();
    out := SerializeValue(heap, root, ancestors);
  }

  // ---------- The tree a slot unfolds to ----------

  /** t is what the slot denotes once shared objects are copied out. */
  ghost predicate Unfolds(heap: Heap, s: Slot, t: Json)
    decreases t
  {
    match s
    case Leaf(v) => t == v
    case Ref(id) =>
      id in heap &&
      match heap[id]
      case ArrayNode(items) =>
        t.Arr? && |t.items| == |items| && forall i :: 0 <= i < |items| ==> Unfolds(heap, items[i], t.items[i])
      case ObjectNode(members) =>
        && t.Obj? && |t.members| == |members|
        && (forall i :: 0 <= i < |members| ==> members[i].key == t.members[i].key)
        && (forall i :: 0 <= i < |members| ==> Unfolds(heap, members[i].value, t.members[i].value))
  }

  lemma {:induction false} UnfoldingUnique(heap: Heap, s: Slot, t: Json, u: Json)
    requires Unfolds(heap, s, t) && Unfolds(heap, s, u)
    ensures t == u
    decreases t
  {
    if s.Ref? {
      match heap[s.id] {
        case ArrayNode(items) =>
          forall i | 0 <= i < |items|
            ensures t.items[i] == u.items[i]
          {
            UnfoldingUnique(heap, items[i], t.items[i], u.items[i]);
          }
          assert t.items == u.items;
        case ObjectNode(members) =>
          forall i | 0 <= i < |members|
            ensures t.members[i] == u.members[i]
          {
            UnfoldingUnique(heap, members[i].value, t.members[i].value, u.members[i].value);
          }
          assert t.members == u.members;
      }
    }
  }

  /** Members of the heap and of the tree, in the same order. */
  ghost predicate MembersUnfold(heap: Heap, ms: seq<Member<Slot>>, ns: seq<Member<Json>>) {
    && |ms| == |ns|
    && forall i :: 0 <= i < |ms| ==> ms[i].key == ns[i].key && Unfolds(heap, ms[i].value, ns[i].value)
  }

  lemma OneMoreUnfolds(heap: Heap, m: Member<Slot>, n: Member<Json>, ms: seq<Member<Slot>>, ns: seq<Member<Json>>)
    requires m.key == n.key && Unfolds(heap, m.value, n.value) && MembersUnfold(heap, ms, ns)
    ensures MembersUnfold(heap, [m] + ms, [n] + ns)
  {
  }

  lemma {:induction false} InsertUnfolds(heap: Heap, m: Member<Slot>, n: Member<Json>, ms: seq<Member<Slot>>, ns: seq<Member<Json>>)
    requires m.key == n.key && Unfolds(heap, m.value, n.value) && MembersUnfold(heap, ms, ns)
    ensures MembersUnfold(heap, Insert(m, ms), Insert(n, ns))
  {
    if ms != [] && Before(ms[0].key, m.key) {
      InsertUnfolds(heap, m, n, ms[1..], ns[1..]);
      OneMoreUnfolds(heap, ms[0], ns[0], Insert(m, ms[1..]), Insert(n, ns[1..]));
    } else {
      OneMoreUnfolds(heap, m, n, ms, ns);
    }
  }

  lemma {:induction false} SortUnfolds(heap: Heap, ms: seq<Member<Slot>>, ns: seq<Member<Json>>)
    requires MembersUnfold(heap, ms, ns)
    ensures MembersUnfold(heap, SortMembers(ms), SortMembers(ns))
  {
    if ms != [] {
      SortUnfolds(heap, ms[1..], ns[1..]);
      InsertUnfolds(heap, ms[0], ns[0], SortMembers(ms[1..]), SortMembers(ns[1..]));
    }
  }

  /** Every ancestor unfolds to a tree that properly contains t. */
  ghost predicate Above(heap: Heap, ancestors: set<Id>, trees: map<Id, Json>, t: Json) {
    forall a :: a in ancestors ==> a in trees && Unfolds(heap, Ref(a), trees[a]) && t < trees[a]
  }

  /** Where a slot has an unfolding, sharing is invisible: the traversal gives what canonicalising the tree gives,
      errors included. */
  lemma {:induction false} SerializeIsCanonical(heap: Heap, s: Slot, ancestors: set<Id>, trees: map<Id, Json>, t: Json)
    requires Closed(heap) && Allocated(heap, s)
    requires Unfolds(heap, s, t) && Above(heap, ancestors, trees, t)
    ensures Serialize(heap, s, ancestors) == Canonicalize(t)
    decreases t, 1, 0
  {
    if s.Ref? {
      if s.id in ancestors {
        UnfoldingUnique(heap, s, t, trees[s.id]);
        assert false;
      }
      NodeIsCanonical(heap, s.id, ancestors, trees, t);
    }
  }

  lemma {:induction false} NodeIsCanonical(heap: Heap, id: Id, ancestors: set<Id>, trees: map<Id, Json>, t: Json)
    requires Closed(heap) && id in heap && id !in ancestors
    requires Unfolds(heap, Ref(id), t) && Above(heap, ancestors, trees, t)
    ensures Serialize(heap, Ref(id), ancestors) == Canonicalize(t)
    decreases t, 0, (match t case Arr(items) => |items| case Obj(members) => |members| case _ => 0) + 1
  {
    var inside, trees' := ancestors + {id}, trees[id := t];
    ChildrenAllocated(heap, id);
    assert Around(heap, inside, trees', t);
    match heap[id] {
      case ArrayNode(items) =>
        assert forall i :: 0 <= i < |t.items| ==> t.items[i] < t;
        ItemsAreCanonical(heap, items, inside, trees', t.items, t);
      case ObjectNode(members) =>
        SortUnfolds(heap, members, t.members);
        SortedMembersInside(t);
        MembersAreCanonical(heap, SortMembers(members), inside, trees', SortMembers(t.members), t);
    }
  }

  ghost predicate Around(heap: Heap, ancestors: set<Id>, trees: map<Id, Json>, parent: Json) {
    forall a :: a in ancestors ==> a in trees && Unfolds(heap, Ref(a), trees[a]) && (parent < trees[a] || parent == trees[a])
  }

  lemma {:induction false} ItemsAreCanonical(heap: Heap, items: seq<Slot>, ancestors: set<Id>, trees: map<Id, Json>,
                                             ts: seq<Json>, parent: Json)
    requires Closed(heap) && AllAllocated(heap, items)
    requires |ts| == |items| && forall i :: 0 <= i < |items| ==> Unfolds(heap, items[i], ts[i])
    requires forall i :: 0 <= i < |ts| ==> ts[i] < parent
    requires Around(heap, ancestors, trees, parent)
    ensures SerializeItems(heap, items, ancestors) == CanonicalItems(ts)
    decreases parent, 0, |ts|
  {
    if items != [] {
      SerializeIsCanonical(heap, items[0], ancestors, trees, ts[0]);
      ItemsAreCanonical(heap, items[1..], ancestors, trees, ts[1..], parent);
    }
  }

  lemma {:induction false} MembersAreCanonical(heap: Heap, ms: seq<Member<Slot>>, ancestors: set<Id>, trees: map<Id, Json>,
                                               ns: seq<Member<Json>>, parent: Json)
    requires Closed(heap) && AllMembersAllocated(heap, ms) && MembersUnfold(heap, ms, ns)
    requires forall n :: n in ns ==> n.value < parent
    requires Around(heap, ancestors, trees, parent)
    ensures SerializeMembers(heap, ms, ancestors) == CanonicalMembers(parent, ns)
    decreases parent, 0, |ns|
  {
    if ms != [] {
      assert ns[0] in ns && Unfolds(heap, ms[0].value, ns[0].value);
      assert ms[0].value == Leaf(Unsupported(Undefined)) <==> ns[0].value == Unsupported(Undefined);
      SerializeIsCanonical(heap, ms[0].value, ancestors, trees, ns[0].value);
      MembersAreCanonical(heap, ms[1..], ancestors, trees, ns[1..], parent);
    }
  }

  // ---------- Cycles ----------

  ghost predicate Edge(heap: Heap, a: Id, b: Id) {
    a in heap && Holds(heap[a], Ref(b))
  }

  /** A chain of references that starts at s. */
  ghost predicate Walk(heap: Heap, s: Slot, p: seq<Id>) {
    p != [] && s == Ref(p[0]) && forall i :: 0 <= i < |p| - 1 ==> Edge(heap, p[i], p[i + 1])
  }

  /** The chain ends in an object it already went through, or in one of the given ones. */
  ghost predicate Returns(p: seq<Id>, ancestors: set<Id>)
    requires p != []
  {
    p[|p| - 1] in ancestors || p[|p| - 1] in p[..|p| - 1]
  }

  ghost predicate CycleReachable(heap: Heap, s: Slot) {
    exists p :: Walk(heap, s, p) && Returns(p, {})
  }

  ghost predicate Supported(s: Slot) {
    s.Leaf? ==> PrintLeaf(s.v).Ok?
  }

  /** Every value that can be reached has a JSON form. */
  ghost predicate SupportedFrom(heap: Heap, root: Slot) {
    && Supported(root)
    && forall p, s :: Walk(heap, root, p) && p[|p| - 1] in heap && Holds(heap[p[|p| - 1]], s) ==> Supported(s)
  }

  lemma WalkMore(heap: Heap, id: Id, q: seq<Id>)
    requires q != [] && Walk(heap, Ref(q[0]), q) && Edge(heap, id, q[0])
    ensures Walk(heap, Ref(id), [id] + q)
  {
    var p := [id] + q;
    forall i | 0 <= i < |p| - 1
      ensures Edge(heap, p[i], p[i + 1])
    {
      if i > 0 {
        assert Edge(heap, q[i - 1], q[i]);
      }
    }
  }

  lemma SupportedBelow(heap: Heap, id: Id, s: Slot)
    requires id in heap && SupportedFrom(heap, Ref(id)) && Holds(heap[id], s)
    ensures SupportedFrom(heap, s)
  {
    assert Walk(heap, Ref(id), [id]);
    forall p, t | Walk(heap, s, p) && p[|p| - 1] in heap && Holds(heap[p[|p| - 1]], t)
      ensures Supported(t)
    {
      WalkMore(heap, id, p);
      assert ([id] + p)[|p|] == p[|p| - 1];
    }
  }

  ghost function Children(node: Node): seq<Slot> {
    match node
    case ArrayNode(items) => items
    case ObjectNode(members) => Values(SortMembers(members))
  }

  ghost function Values(members: seq<Member<Slot>>): seq<Slot> {
    seq(|members|, i requires 0 <= i < |members| => members[i].value)
  }

  lemma ChildrenAreHeld(node: Node, s: Slot)
    ensures s in Children(node) <==> Holds(node, s)
  {
    if node.ObjectNode? {
      SortedSlotsInside(node.members);
      var ms := SortMembers(node.members);
      if s in Children(node) {
        var i :| 0 <= i < |ms| && ms[i].value == s;
        assert ms[i] in ms;
      }
      if Holds(node, s) {
        var m :| m in node.members && m.value == s;
        assert m in ms;
        var i :| 0 <= i < |ms| && ms[i] == m;
        assert Children(node)[i] == s;
      }
    }
  }

  /** With supported leaves, a list of slots is refused exactly when one of them is, and only for a cycle. */
  lemma {:induction false} ItemsRefused(heap: Heap, items: seq<Slot>, ancestors: set<Id>)
    requires Closed(heap) && AllAllocated(heap, items)
    requires forall s :: s in items ==> Serialize(heap, s, ancestors).Ok? || Serialize(heap, s, ancestors) == Err(Circular)
    ensures var texts := SerializeItems(heap, items, ancestors);
            && (texts.Err? ==> texts.error == Circular)
            && (texts.Err? <==> exists s :: s in items && Serialize(heap, s, ancestors).Err?)
  {
    if items != [] {
      assert forall s :: s in items <==> s == items[0] || s in items[1..];
      ItemsRefused(heap, items[1..], ancestors);
      if s :| s in items && Serialize(heap, s, ancestors).Err? {
        assert s == items[0] || s in items[1..];
      }
      if s :| s in items[1..] && Serialize(heap, s, ancestors).Err? {
        assert s in items;
      }
    }
  }

  lemma {:induction false} MembersRefused(heap: Heap, members: seq<Member<Slot>>, ancestors: set<Id>)
    requires Closed(heap) && AllMembersAllocated(heap, members)
    requires forall s :: s in Values(members) ==> Supported(s)
    requires forall s :: s in Values(members) ==> Serialize(heap, s, ancestors).Ok? || Serialize(heap, s, ancestors) == Err(Circular)
    ensures var texts := SerializeMembers(heap, members, ancestors);
            && (texts.Err? ==> texts.error == Circular)
            && (texts.Err? <==> exists s :: s in Values(members) && Serialize(heap, s, ancestors).Err?)
  {
    if members != [] {
      assert Values(members) == [members[0].value] + Values(members[1..]);
      assert forall s :: s in Values(members) <==> s == members[0].value || s in Values(members[1..]);
      MembersRefused(heap, members[1..], ancestors);
      if s :| s in Values(members) && Serialize(heap, s, ancestors).Err? {
        assert s == members[0].value || s in Values(members[1..]);
      }
      if s :| s in Values(members[1..]) && Serialize(heap, s, ancestors).Err? {
        assert s in Values(members);
      }
      assert members[0].value != Leaf(Unsupported(Undefined)) by {
        assert Supported(members[0].value);
      }
    }
  }

  ghost predicate Refused(heap: Heap, s: Slot, ancestors: set<Id>)
    requires Closed(heap) && Allocated(heap, s)
  {
    Serialize(heap, s, ancestors) == Err(Circular)
  }

  lemma ChildAllocated(heap: Heap, id: Id, s: Slot)
    requires Closed(heap) && id in heap && s in Children(heap[id])
    ensures Allocated(heap, s)
  {
    ChildrenAreHeld(heap[id], s);
  }

  /** An object is refused exactly when it is its own ancestor or holds a refused slot. */
  lemma {:induction false} RefusedStep(heap: Heap, id: Id, ancestors: set<Id>)
    requires Closed(heap) && SupportedFrom(heap, Ref(id)) && id in heap
    ensures Serialize(heap, Ref(id), ancestors).Ok? || Refused(heap, Ref(id), ancestors)
    ensures Refused(heap, Ref(id), ancestors) <==>
            id in ancestors || exists s :: s in Children(heap[id]) && Allocated(heap, s) && Refused(heap, s, ancestors + {id})
    decreases heap.Keys - ancestors
  {
    if id !in ancestors {
      var node, inside := heap[id], ancestors + {id};
      assert id in heap.Keys - ancestors && id !in heap.Keys - inside;
      ChildrenAllocated(heap, id);
      forall s | s in Children(node)
        ensures Supported(s) && Allocated(heap, s)
        ensures Serialize(heap, s, inside).Ok? || Serialize(heap, s, inside) == Err(Circular)
      {
        ChildrenAreHeld(node, s);
        SupportedBelow(heap, id, s);
        if s.Ref? {
          RefusedStep(heap, s.id, inside);
        }
      }
      match node {
        case ArrayNode(items) => ItemsRefused(heap, items, inside);
        case ObjectNode(members) => MembersRefused(heap, SortMembers(members), inside);
      }
    }
  }

  /** A refusal is witnessed by a chain that returns. */
  lemma {:induction false} RefusalHasWalk(heap: Heap, id: Id, ancestors: set<Id>) returns (p: seq<Id>)
    requires Closed(heap) && SupportedFrom(heap, Ref(id)) && id in heap && Refused(heap, Ref(id), ancestors)
    ensures Walk(heap, Ref(id), p) && Returns(p, ancestors)
    decreases heap.Keys - ancestors
  {
    RefusedStep(heap, id, ancestors);
    if id in ancestors {
      return [id];
    }
    assert id in heap.Keys - ancestors && id !in heap.Keys - (ancestors + {id});
    var s :| s in Children(heap[id]) && Allocated(heap, s) && Refused(heap, s, ancestors + {id});
    ChildrenAreHeld(heap[id], s);
    SupportedBelow(heap, id, s);
    assert s.Ref?;
    var q := RefusalHasWalk(heap, s.id, ancestors + {id});
    LongerWalk(heap, id, q, ancestors);
    p := [id] + q;
  }

  lemma LongerWalk(heap: Heap, id: Id, q: seq<Id>, ancestors: set<Id>)
    requires q != [] && Walk(heap, Ref(q[0]), q) && Edge(heap, id, q[0]) && Returns(q, ancestors + {id})
    ensures Walk(heap, Ref(id), [id] + q) && Returns([id] + q, ancestors)
  {
    var p := [id] + q;
    assert p[..|p| - 1] == [id] + q[..|q| - 1];
    WalkMore(heap, id, q);
  }

  lemma RestOfWalk(heap: Heap, p: seq<Id>, ancestors: set<Id>)
    requires p != [] && Walk(heap, Ref(p[0]), p) && Returns(p, ancestors) && p[0] !in ancestors
    ensures |p| > 1 && Edge(heap, p[0], p[1]) && Walk(heap, Ref(p[1]), p[1..]) && Returns(p[1..], ancestors + {p[0]})
  {
    var q := p[1..];
    assert |p| > 1;
    assert p[..|p| - 1] == [p[0]] + q[..|q| - 1];
    forall i | 0 <= i < |q| - 1
      ensures Edge(heap, q[i], q[i + 1])
    {
      assert Edge(heap, p[i + 1], p[i + 2]);
    }
  }

  /** A chain that returns causes a refusal. */
  lemma {:induction false} WalkIsRefused(heap: Heap, p: seq<Id>, ancestors: set<Id>)
    requires p != [] && Closed(heap) && SupportedFrom(heap, Ref(p[0]))
    requires p[0] in heap && Walk(heap, Ref(p[0]), p) && Returns(p, ancestors)
    ensures Refused(heap, Ref(p[0]), ancestors)
    decreases |p|
  {
    RefusedStep(heap, p[0], ancestors);
    if p[0] !in ancestors {
      RestOfWalk(heap, p, ancestors);
      ChildrenAreHeld(heap[p[0]], Ref(p[1]));
      SupportedBelow(heap, p[0], Ref(p[1]));
      ChildAllocated(heap, p[0], Ref(p[1]));
      WalkIsRefused(heap, p[1..], ancestors + {p[0]});
    }
  }

  /** A value that prints has an unfolding. */
  lemma {:induction false} PrintedUnfolds(heap: Heap, s: Slot, ancestors: set<Id>) returns (t: Json)
    requires Closed(heap) && Allocated(heap, s) && Serialize(heap, s, ancestors).Ok?
    ensures Unfolds(heap, s, t)
    decreases heap.Keys - ancestors, 1, 0
  {
    match s {
      case Leaf(v) => t := v;
      case Ref(id) =>
        var inside := ancestors + {id};
        assert id in heap.Keys - ancestors && id !in heap.Keys - inside;
        ChildrenAllocated(heap, id);
        match heap[id] {
          case ArrayNode(items) =>
            var ts := PrintedItemsUnfold(heap, items, inside);
            t := Arr(ts);
          case ObjectNode(members) =>
            SortedSlotsInside(members);
            var ms := SortMembers(members);
            assert forall m :: m in members ==> m in ms;
            var ns := PrintedMembersUnfold(heap, ms, members, inside);
            t := Obj(ns);
        }
    }
  }

  lemma {:induction false} PrintedItemsUnfold(heap: Heap, items: seq<Slot>, ancestors: set<Id>) returns (ts: seq<Json>)
    requires Closed(heap) && AllAllocated(heap, items) && SerializeItems(heap, items, ancestors).Ok?
    ensures |ts| == |items| && forall i :: 0 <= i < |items| ==> Unfolds(heap, items[i], ts[i])
    decreases heap.Keys - ancestors, 2, |items|
  {
    if items == [] {
      ts := [];
    } else {
      var t := PrintedUnfolds(heap, items[0], ancestors);
      var rest := PrintedItemsUnfold(heap, items[1..], ancestors);
      ts := [t] + rest;
      forall i | 0 <= i < |items|
        ensures Unfolds(heap, items[i], ts[i])
      {
        assert i > 0 ==> Unfolds(heap, items[1..][i - 1], rest[i - 1]);
      }
    }
  }

  lemma {:induction false} MemberPrints(heap: Heap, ms: seq<Member<Slot>>, m: Member<Slot>, ancestors: set<Id>)
    requires Closed(heap) && AllMembersAllocated(heap, ms) && SerializeMembers(heap, ms, ancestors).Ok? && m in ms
    ensures Allocated(heap, m.value) && Serialize(heap, m.value, ancestors).Ok?
    decreases |ms|
  {
    assert ms == [ms[0]] + ms[1..];
    if m != ms[0] {
      MemberPrints(heap, ms[1..], m, ancestors);
    }
  }

  lemma {:induction false} PrintedMembersUnfold(heap: Heap, ms: seq<Member<Slot>>, members: seq<Member<Slot>>, ancestors: set<Id>)
    returns (ns: seq<Member<Json>>)
    requires Closed(heap) && AllMembersAllocated(heap, ms) && SerializeMembers(heap, ms, ancestors).Ok?
    requires forall m :: m in members ==> m in ms
    ensures MembersUnfold(heap, members, ns)
    decreases heap.Keys - ancestors, 2, |members|
  {
    if members == [] {
      ns := [];
    } else {
      assert members == [members[0]] + members[1..];
      MemberPrints(heap, ms, members[0], ancestors);
      var t := PrintedUnfolds(heap, members[0].value, ancestors);
      var rest := PrintedMembersUnfold(heap, ms, members[1..], ancestors);
      ns := [Member(members[0].key, t)] + rest;
      forall i | 0 <= i < |members|
        ensures members[i].key == ns[i].key && Unfolds(heap, members[i].value, ns[i].value)
      {
        assert i > 0 ==> members[i] == members[1..][i - 1] && ns[i] == rest[i - 1];
      }
    }
  }

  // ---------- Main results ----------

  /** On any heap: what unfolds to a tree prints as the tree does, whatever is shared. */
  lemma GraphPrintsAsTree(heap: Heap, root: Slot, t: Json)
    requires Closed(heap) && Allocated(heap, root) && Unfolds(heap, root, t)
    ensures Serialize(heap, root, {}) == Canonicalize(t)
  {
    SerializeIsCanonical(heap, root, {}, map[], t);
  }

  /** On any heap, supported or not: a value prints exactly when it unfolds to a tree that does. */
  lemma PrintsExactly(heap: Heap, root: Slot)
    requires Closed(heap) && Allocated(heap, root)
    ensures Serialize(heap, root, {}).Ok? <==> exists t :: Unfolds(heap, root, t) && Canonicalize(t).Ok?
  {
    if Serialize(heap, root, {}).Ok? {
      var t := PrintedUnfolds(heap, root, {});
      GraphPrintsAsTree(heap, root, t);
    }
    if t :| Unfolds(heap, root, t) && Canonicalize(t).Ok? {
      GraphPrintsAsTree(heap, root, t);
    }
  }

  /** When all that can be reached is supported: "circular" is thrown exactly when a cycle can be reached, and otherwise the root
      unfolds to a tree and the text is the tree's. */
  lemma CircularIffCycle(heap: Heap, root: Slot)
    requires Closed(heap) && SupportedFrom(heap, root) && Allocated(heap, root)
    ensures Serialize(heap, root, {}) == Err(Circular) <==> CycleReachable(heap, root)
    ensures CycleReachable(heap, root) <==> !exists t :: Unfolds(heap, root, t)
    ensures !CycleReachable(heap, root) ==> Serialize(heap, root, {}).Ok?
  {
    if root.Ref? {
      RefusedStep(heap, root.id, {});
      if Refused(heap, root, {}) {
        var p := RefusalHasWalk(heap, root.id, {});
      }
      if CycleReachable(heap, root) {
        var p :| Walk(heap, root, p) && Returns(p, {});
        WalkIsRefused(heap, p, {});
        assert Refused(heap, root, {});
      }
    }
    if Serialize(heap, root, {}).Ok? {
      var t := PrintedUnfolds(heap, root, {});
      assert exists u :: Unfolds(heap, root, u);
    } else {
      assert Refused(heap, root, {});
      forall t | Unfolds(heap, root, t)
        ensures false
      {
        TreesArePrinted(heap, root, t);
      }
    }
  }

  /** Over supported leaves every tree prints. */
  lemma TreesArePrinted(heap: Heap, root: Slot, t: Json)
    requires Closed(heap) && SupportedFrom(heap, root) && Allocated(heap, root) && Unfolds(heap, root, t)
    ensures Serialize(heap, root, {}).Ok?
  {
    GraphPrintsAsTree(heap, root, t);
    NeverCircular(t);
    if root.Ref? {
      RefusedStep(heap, root.id, {});
    }
  }

  lemma {:induction false} NeverCircular(v: Json)
    ensures Canonicalize(v) != Err(Circular)
    decreases v, 1, 0
  {
    match v {
      case Arr(items) => ItemsNeverCircular(items);
      case Obj(members) =>
        SortedMembersInside(v);
        MembersNeverCircular(v, SortMembers(members));
      case _ =>
    }
  }

  lemma {:induction false} ItemsNeverCircular(items: seq<Json>)
    ensures CanonicalItems(items) != Err(Circular)
    decreases items
  {
    if items != [] {
      NeverCircular(items[0]);
      ItemsNeverCircular(items[1..]);
    }
  }

  lemma {:induction false} MembersNeverCircular(parent: Json, members: seq<Member<Json>>)
    requires forall m :: m in members ==> m.value < parent
    ensures CanonicalMembers(parent, members) != Err(Circular)
    decreases parent, 0, |members|
  {
    if members != [] {
      NeverCircular(members[0].value);
      MembersNeverCircular(parent, members[1..]);
    }
  }
}
