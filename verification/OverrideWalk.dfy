/**
 The in-place walk of `with_overrides`: a cursor that descends through a mutable
 tree, inserts a missing key, and overwrites the node it ends at.
 */
module OverrideWalk {
  import opened Text
  import opened Overrides

  /** A node of a mutable JSON tree. `model` is the value the tree below it spells
      and `repr` the nodes that tree is made of. */
  class Node {
    var isObject: bool
    var scalar: Value
    var fields: map<string, Node>
    ghost var repr: set<Node>
    ghost var model: Value

    ghost predicate Valid()
      reads this, repr
      decreases repr
    {
      && this in repr
      && (isObject ==>
            && (forall k | k in fields ::
                  fields[k] in repr && fields[k].repr <= repr - {this} && fields[k].Valid())
            && (forall j, k | j in fields && k in fields && j != k :: fields[j].repr !! fields[k].repr)
            && model == Object(map k | k in fields :: fields[k].model))
      && (!isObject ==> !scalar.Object? && model == scalar)
    }

    constructor Leaf(v: Value)
      requires !v.Object?
      ensures Valid() && repr == {this} && model == v && !isObject
    {
      isObject, scalar, fields := false, v, map[];
      repr, model := {this}, v;
    }
  }

  /** An ancestor of the cursor: `a` leads to `child` under `key`, and `zone` holds
      `a` and all that hangs beside `child`. Says nothing of what is below `child`. */
  ghost predicate Rib(a: Node, key: string, child: Node, zone: set<Node>, model: Value)
    reads zone
  {
    && a in zone && a.isObject && key in a.fields && a.fields[key] == child
    && (forall k | k in a.fields && k != key ::
          a.fields[k] in zone && a.fields[k].repr <= zone - {a} && a.fields[k].Valid())
    && (forall j, k | j in a.fields && k in a.fields && j != k && j != key && k != key ::
          a.fields[j].repr !! a.fields[k].repr)
    && model.Object?
    && (forall k | k != key :: k in a.fields <==> k in model.fields)
    && (forall k | k in a.fields && k != key :: model.fields[k] == a.fields[k].model)
  }

  /** Ties an ancestor to the valid subtree under `key`. Only ghost fields change. */
  ghost method TieOne(a: Node, key: string, child: Node, zone: set<Node>, model: Value)
    requires Rib(a, key, child, zone, model) && child.Valid() && zone !! child.repr
    modifies a
    ensures a.Valid() && a.repr == zone + child.repr
    ensures a.model == Object(model.fields[key := child.model])
    ensures a.isObject == old(a.isObject) && a.fields == old(a.fields) && a.scalar == old(a.scalar)
  {
    a.repr := zone + child.repr;
    a.model := Object(model.fields[key := child.model]);
    assert a.model.fields == map k | k in a.fields :: a.fields[k].model;
  }

  /** One step of the walk that led to the cursor. */
  datatype Hop = Hop(node: Node, key: string, child: Node, zone: set<Node>, model: Value)

  ghost predicate HopOk(s: Hop)
    reads s.zone
  {
    Rib(s.node, s.key, s.child, s.zone, s.model)
  }

  function Keys(trail: seq<Hop>): (keys: seq<string>)
    ensures |keys| == |trail| && forall j :: 0 <= j < |keys| ==> keys[j] == trail[j].key
  {
    seq(|trail|, j requires 0 <= j < |trail| => trail[j].key)
  }

  /** The steps lead from `root` to `cursor`, through nodes that are apart. */
  ghost predicate Leads(trail: seq<Hop>, root: Node, cursor: Node) {
    && (trail == [] ==> root == cursor)
    && (trail != [] ==> trail[0].node == root && trail[|trail| - 1].child == cursor)
    && (forall j :: 0 <= j < |trail| - 1 ==> trail[j].child == trail[j + 1].node)
    && (forall i, j :: 0 <= i < j < |trail| ==> trail[i].zone !! trail[j].zone)
  }

  /** Hop `j` starts at the node that `v` has at the keys before it. */
  ghost predicate Reads(trail: seq<Hop>, v: Value) {
    forall j :: 0 <= j < |trail| ==> Get(v, Keys(trail)[..j]) == Some(trail[j].model)
  }

  ghost predicate HopsOk(trail: seq<Hop>)
    reads set j, n | 0 <= j < |trail| && n in trail[j].zone :: n
  {
    forall j :: 0 <= j < |trail| ==> HopOk(trail[j])
  }

  ghost predicate ApartFrom(trail: seq<Hop>, below: set<Node>) {
    forall j :: 0 <= j < |trail| ==> trail[j].zone !! below
  }

  lemma {:induction false} SetExtends(v: Value, path: seq<string>, key: string, x: Value)
    requires Get(v, path).Some? && Get(v, path).value.Object?
    ensures Set(v, path + [key], x) == Set(v, path, Object(Get(v, path).value.fields[key := x]))
    decreases |path|
  {
    if path == [] {
      assert (path + [key])[1..] == [];
    } else {
      SetExtends(v.fields[path[0]], path[1..], key, x);
      assert (path + [key])[1..] == path[1..] + [key];
    }
  }

  lemma {:induction false} ReadsPrefix(trail: seq<Hop>, v: Value)
    requires trail != [] && Reads(trail, v)
    ensures Reads(trail[..|trail| - 1], v)
    ensures Get(v, Keys(trail[..|trail| - 1])) == Some(trail[|trail| - 1].model)
    ensures Keys(trail) == Keys(trail[..|trail| - 1]) + [trail[|trail| - 1].key]
  {
    var n := |trail| - 1;
    assert Keys(trail[..n]) == Keys(trail)[..n];
    forall j | 0 <= j < n
      ensures Get(v, Keys(trail[..n])[..j]) == Some(trail[j].model)
    {
      assert Keys(trail)[..n][..j] == Keys(trail)[..j];
    }
  }

  lemma {:induction false} LeadsPrefix(trail: seq<Hop>, root: Node, cursor: Node, below: set<Node>)
    requires trail != [] && Leads(trail, root, cursor) && ApartFrom(trail, below)
    ensures var n := |trail| - 1;
            Leads(trail[..n], root, trail[n].node) && ApartFrom(trail[..n], trail[n].zone + below)
  {
  }

  ghost method TieLast(trail: seq<Hop>)
    requires trail != [] && HopsOk(trail)
    requires forall i, j :: 0 <= i < j < |trail| ==> trail[i].zone !! trail[j].zone
    requires var s := trail[|trail| - 1]; s.child.Valid() && s.zone !! s.child.repr
    modifies trail[|trail| - 1].node
    ensures HopsOk(trail[..|trail| - 1])
    ensures var s := trail[|trail| - 1];
            && s.node.Valid() && s.node.repr == s.zone + old(s.child.repr)
            && s.model.Object? && s.node.model == Object(s.model.fields[s.key := old(s.child.model)])
  {
    var n := |trail| - 1;
    var s := trail[n];
    assert HopOk(s);
    assert s.node in s.zone;
    assert forall j :: 0 <= j < n ==> s.node !in trail[j].zone;
    TieOne(s.node, s.key, s.child, s.zone, s.model);
    forall j | 0 <= j < n
      ensures HopOk(trail[..n][j])
    {
      assert old(HopOk(trail[j]));
    }
  }

  /** Ties all ancestors from the cursor up to the root: the tree is valid again and
      spells the value with the cursor's value written at the keys of the trail. */
  ghost method Tie(trail: seq<Hop>, root: Node, cursor: Node, v: Value)
    requires HopsOk(trail) && Leads(trail, root, cursor) && Reads(trail, v)
    requires cursor.Valid() && ApartFrom(trail, cursor.repr)
    modifies set j | 0 <= j < |trail| :: trail[j].node
    ensures root.Valid()
    ensures Set(v, Keys(trail), old(cursor.model)) == Some(root.model)
    decreases |trail|
  {
    if trail != [] {
      var n := |trail| - 1;
      var s := trail[n];
      ReadsPrefix(trail, v);
      LeadsPrefix(trail, root, cursor, cursor.repr);
      TieLast(trail);
      SetExtends(v, Keys(trail[..n]), s.key, old(cursor.model));
      Tie(trail[..n], root, s.node, v);
    }
  }

  // ---------------------------------------------------------------- the walk

  /** One turn of the loop at an object: insert the key if it is missing, and move
      to the child. */
  method Descend(cursor: Node, key: string) returns (child: Node, ghost zone: set<Node>)
    requires cursor.Valid() && cursor.isObject
    modifies cursor
    ensures Rib(cursor, key, child, zone, old(cursor.model))
    ensures child.Valid() && zone !! child.repr && zone <= old(cursor.repr) && fresh(child.repr - old(cursor.repr))
    ensures var fields := old(cursor.model).fields;
            if key in fields then child.model == fields[key] else child.model == Null && !child.isObject
  {
    zone := cursor.repr;
    if key !in cursor.fields {
      var missing := new Node.Leaf(Null);
      cursor.fields := cursor.fields[key := missing];
    } else {
      zone := cursor.repr - cursor.fields[key].repr;
    }
    child := cursor.fields[key];
  }

  /** The fields of an object node, apart from the node: `zone` holds their trees. */
  ghost predicate Subtrees(fields: map<string, Node>, zone: set<Node>, model: Value)
    reads zone
  {
    && (forall k | k in fields :: fields[k] in zone && fields[k].repr <= zone && fields[k].Valid())
    && (forall j, k | j in fields && k in fields && j != k :: fields[j].repr !! fields[k].repr)
    && model == Object(map k | k in fields :: fields[k].model)
  }

  /** A node over valid subtrees is valid. */
  lemma {:induction false} Rooted(n: Node, below: set<Node>)
    requires n.repr == {n} + below && n !in below
    requires if n.isObject then Subtrees(n.fields, below, n.model) else !n.scalar.Object? && n.model == n.scalar
    ensures n.Valid()
  {
  }

  /** `*cursor = value`: the value's content moves into the cursor's node. */
  method Overwrite(cursor: Node, value: Node)
    requires value.Valid() && cursor !in value.repr
    modifies cursor
    ensures cursor.Valid() && cursor.model == old(value.model)
    ensures cursor.repr == {cursor} + (old(value.repr) - {value})
  {
    ghost var below := value.repr - {value};
    assert value.isObject ==> Subtrees(value.fields, below, value.model);
    cursor.isObject, cursor.scalar, cursor.fields := value.isObject, value.scalar, value.fields;
    cursor.repr, cursor.model := {cursor} + below, value.model;
    Rooted(cursor, below);
  }

  lemma {:induction false} WalkFails(v: Value, path: seq<string>, i: nat, x: Value)
    requires i < |path| && !ObjectAt(v, path[..i])
    ensures Set(v, path, x).None?
  {
    SetSucceedsIff(v, path, x);
  }

  /** What `v` has at the cursor: its value, or nothing if the key was just inserted. */
  ghost predicate AtCursor(v: Value, keys: seq<string>, cursor: Node)
    reads cursor
  {
    Get(v, keys) == Some(cursor.model) || (Get(v, keys).None? && !cursor.isObject)
  }

  lemma {:induction false} GetSnoc(v: Value, keys: seq<string>, key: string)
    ensures Get(v, keys + [key])
            == if ObjectAt(v, keys) && key in Get(v, keys).value.fields then Some(Get(v, keys).value.fields[key]) else None
    decreases |keys|
  {
    if keys == [] {
      assert (keys + [key])[1..] == [];
    } else if v.Object? && keys[0] in v.fields {
      GetSnoc(v.fields[keys[0]], keys[1..], key);
      assert (keys + [key])[1..] == keys[1..] + [key];
    }
  }

  /** The state of the walk after the keys of the trail. */
  ghost predicate Walking(trail: seq<Hop>, root: Node, cursor: Node, v: Value, own: set<Node>)
    reads *
  {
    && HopsOk(trail) && Leads(trail, root, cursor) && Reads(trail, v)
    && cursor.Valid() && ApartFrom(trail, cursor.repr) && AtCursor(v, Keys(trail), cursor)
    && cursor.repr <= own && (forall j :: 0 <= j < |trail| ==> trail[j].zone <= own)
  }

  lemma {:induction false} ReadsSnoc(trail: seq<Hop>, s: Hop, v: Value)
    requires Reads(trail, v) && Get(v, Keys(trail)) == Some(s.model)
    ensures Reads(trail + [s], v) && Keys(trail + [s]) == Keys(trail) + [s.key]
  {
    var longer := trail + [s];
    assert Keys(longer) == Keys(trail) + [s.key];
    forall j | 0 <= j < |longer|
      ensures Get(v, Keys(longer)[..j]) == Some(longer[j].model)
    {
      if j < |trail| {
        assert Keys(longer)[..j] == Keys(trail)[..j];
      } else {
        assert Keys(longer)[..j] == Keys(trail);
      }
    }
  }

  lemma {:induction false} LeadsSnoc(trail: seq<Hop>, s: Hop, root: Node, zone: set<Node>)
    requires Leads(trail, root, s.node) && ApartFrom(trail, zone) && s.zone <= zone
    ensures Leads(trail + [s], root, s.child)
  {
  }

  lemma {:induction false} WalkingSnoc(trail: seq<Hop>, s: Hop, root: Node, v: Value, own: set<Node>)
    requires HopsOk(trail) && HopOk(s) && Leads(trail, root, s.node) && Reads(trail, v)
    requires Get(v, Keys(trail)) == Some(s.model) && s.child.Valid() && AtCursor(v, Keys(trail) + [s.key], s.child)
    requires ApartFrom(trail, s.zone + s.child.repr) && s.zone !! s.child.repr
    requires s.zone + s.child.repr <= own && forall j :: 0 <= j < |trail| ==> trail[j].zone <= own
    ensures Walking(trail + [s], root, s.child, v, own) && Keys(trail + [s]) == Keys(trail) + [s.key]
  {
    ReadsSnoc(trail, s, v);
    LeadsSnoc(trail, s, root, s.zone);
  }

  /** What is at the child of an object node at the cursor. */
  lemma {:induction false} AtChild(v: Value, keys: seq<string>, model: Value, key: string, child: Node)
    requires Get(v, keys) == Some(model) && model.Object?
    requires if key in model.fields then child.model == model.fields[key] else !child.isObject
    ensures AtCursor(v, keys + [key], child)
  {
    GetSnoc(v, keys, key);
  }

  /** Descending leaves the steps before the cursor as they were, and apart. */
  method DescendBelow(cursor: Node, key: string, ghost trail: seq<Hop>, ghost own: set<Node>)
    returns (child: Node, ghost zone: set<Node>)
    requires HopsOk(trail) && cursor.Valid() && cursor.isObject && ApartFrom(trail, cursor.repr)
    requires cursor.repr <= own && forall j :: 0 <= j < |trail| ==> trail[j].zone <= own
    modifies cursor
    ensures HopsOk(trail) && ApartFrom(trail, zone + child.repr)
    ensures Rib(cursor, key, child, zone, old(cursor.model))
    ensures child.Valid() && zone !! child.repr && zone <= own && fresh(child.repr - own)
    ensures var fields := old(cursor.model).fields;
            if key in fields then child.model == fields[key] else child.model == Null && !child.isObject
  {
    assert forall j :: 0 <= j < |trail| ==> HopOk(trail[j]) && cursor !in trail[j].zone;
    child, zone := Descend(cursor, key);
  }

  /** The loop body at an object node, seen from the whole walk. */
  method Advance(
    cursor: Node, segments: seq<string>, i: nat,
    ghost trail: seq<Hop>, ghost root: Node, ghost v: Value, ghost own: set<Node>)
    returns (child: Node, ghost longer: seq<Hop>, ghost own': set<Node>)
    requires Walking(trail, root, cursor, v, own) && cursor.isObject
    requires i < |segments| && Keys(trail) == segments[..i]
    modifies own
    ensures Walking(longer, root, child, v, own') && Keys(longer) == segments[..i + 1]
    ensures own <= own' && fresh(own' - own)
  {
    var key := segments[i];
    ghost var zone, model := {}, cursor.model;
    child, zone := DescendBelow(cursor, key, trail, own);
    ghost var s := Hop(cursor, key, child, zone, model);
    own', longer := own + child.repr, trail + [s];
    AtChild(v, Keys(trail), model, key, child);
    WalkingSnoc(trail, s, root, v, own');
    TakeOneMore(segments, i);
  }

  /** Overwriting leaves the steps before the cursor as they were, and apart. */
  method OverwriteBelow(cursor: Node, value: Node, ghost trail: seq<Hop>)
    requires HopsOk(trail) && value.Valid() && cursor !in value.repr
    requires forall j :: 0 <= j < |trail| ==> cursor !in trail[j].zone && trail[j].zone !! value.repr
    modifies cursor
    ensures HopsOk(trail) && cursor.Valid() && cursor.model == old(value.model)
    ensures ApartFrom(trail, cursor.repr)
  {
    assert forall j :: 0 <= j < |trail| ==> HopOk(trail[j]) && cursor !in trail[j].zone;
    Overwrite(cursor, value);
  }

  /** The end of the walk: the cursor's node is overwritten, and the tree is valid. */
  method Finish(cursor: Node, value: Node, ghost trail: seq<Hop>, root: Node, ghost v: Value, ghost own: set<Node>)
    requires Walking(trail, root, cursor, v, own) && value.Valid() && own !! value.repr
    modifies own
    ensures root.Valid() && Set(v, Keys(trail), old(value.model)) == Some(root.model)
  {
    NodesAreOwn(trail, own);
    assert cursor in own;
    OverwriteBelow(cursor, value, trail);
    Tie(trail, root, cursor, v);
  }

  lemma {:induction false} NodesAreOwn(trail: seq<Hop>, own: set<Node>)
    requires HopsOk(trail) && forall j :: 0 <= j < |trail| ==> trail[j].zone <= own
    ensures forall j :: 0 <= j < |trail| ==> trail[j].node in own
  {
  }

  lemma {:induction false} WalkStarts(root: Node)
    requires root.Valid()
    ensures Walking([], root, root, root.model, root.repr) && Keys([]) == []
  {
  }

  /** A cursor that is not an object before the last key: no write can succeed. */
  lemma {:induction false} WalkStops(
    trail: seq<Hop>, root: Node, cursor: Node, v: Value, own: set<Node>, segments: seq<string>)
    requires Walking(trail, root, cursor, v, own) && !cursor.isObject
    requires |trail| < |segments| && Keys(trail) == segments[..|trail|]
    ensures forall x :: Set(v, segments, x).None?
  {
    forall x {
      WalkFails(v, segments, |trail|, x);
    }
  }

  /** The loop of `with_overrides`: false if a node on the way is not an object. */
  method Walk(root: Node, segments: seq<string>)
    returns (ok: bool, cursor: Node, ghost trail: seq<Hop>, ghost own: set<Node>)
    requires root.Valid()
    modifies root.repr
    ensures ok ==> Walking(trail, root, cursor, old(root.model), own) && Keys(trail) == segments
    ensures ok ==> old(root.repr) <= own && fresh(own - old(root.repr))
    ensures !ok ==> forall x :: Set(old(root.model), segments, x).None?
  {
    cursor, trail, own := root, [], root.repr;
    ghost var v := root.model;
    WalkStarts(root);
    for i := 0 to |segments|
      invariant Walking(trail, root, cursor, v, own) && Keys(trail) == segments[..i]
      invariant old(root.repr) <= own && fresh(own - old(root.repr))
    {
      if !cursor.isObject {
        WalkStops(trail, root, cursor, v, own, segments);
        return false, cursor, trail, own;
      }
      cursor, trail, own := Advance(cursor, segments, i, trail, root, v, own);
    }
    return true, cursor, trail, own;
  }

  /** `with_overrides`: the cursor walk leaves the tree that `Override` describes,
      and fails exactly when `Override` does. */
  method WithOverrides(root: Node, path: string, value: Node) returns (ok: bool)
    requires root.Valid() && value.Valid() && root.repr !! value.repr
    modifies root.repr
    ensures ok <==> Override(old(root.model), path, old(value.model)).Some?
    ensures ok ==> root.Valid() && Override(old(root.model), path, old(value.model)) == Some(root.model)
  {
    ghost var v := root.model;
    ghost var trail, own;
    var cursor;
    ok, cursor, trail, own := Walk(root, Split(path, "."));
    if ok {
      Finish(cursor, value, trail, root, v, own);
    }
  }
}