/**
 Configuration overrides: writing a value at a dotted path of a JSON tree. The
 laws of the write as a function of values come first; the in-place walk with a
 cursor, which is what the source runs, is proved equal to it.
 */
module Overrides {
  import opened Text

  datatype Value =
    | Null
    | Bool(flag: bool)
    | Number(number: int)
    | Str(text: string)
    | Array(items: seq<Value>)
    | Object(fields: map<string, Value>)

  function Child(fields: map<string, Value>, key: string): Value {
    if key in fields then fields[key] else Null
  }

  /** The tree with `x` at `path`, creating the last key if it is missing; none if
      a node above the last segment is not an object. */
  function Set(v: Value, path: seq<string>, x: Value): Option<Value>
    decreases |path|
  {
    if path == [] then Some(x)
    else if !v.Object? then None
    else
      match Set(Child(v.fields, path[0]), path[1..], x)
      case None => None
      case Some(child) => Some(Object(v.fields[path[0] := child]))
  }

  function Get(v: Value, path: seq<string>): Option<Value> {
    if path == [] then Some(v)
    else if !v.Object? || path[0] !in v.fields then None
    else Get(v.fields[path[0]], path[1..])
  }

  /** `with_overrides` on the tree: the path is cut at its dots. */
  function Override(v: Value, path: string, x: Value): Option<Value> {
    Set(v, Split(path, "."), x)
  }

  /** A path names the keys between its dots. */
  lemma {:induction false} OverrideByKeys(v: Value, keys: seq<string>, x: Value)
    requires |keys| >= 1 && forall k :: 0 <= k < |keys| ==> '.' !in keys[k]
    ensures Override(v, Join(keys, "."), x) == Set(v, keys, x)
  {
    forall k | 0 <= k < |keys|
      ensures !Contains(keys[k], ".")
    {
      CharOccurs(keys[k], '.');
    }
    JoinThenSplit(keys, ".");
  }

  // ---------------------------------------------------------------- laws

  /** Reading the written path gives the written value. */
  lemma {:induction false} GetAfterSet(v: Value, path: seq<string>, x: Value)
    requires Set(v, path, x).Some?
    ensures Get(Set(v, path, x).value, path) == Some(x)
    decreases |path|
  {
    if path != [] {
      GetAfterSet(Child(v.fields, path[0]), path[1..], x);
    }
  }

  /** A second write overwrites the first. */
  lemma {:induction false} SetTwice(v: Value, path: seq<string>, x: Value, y: Value)
    requires Set(v, path, x).Some?
    ensures Set(Set(v, path, x).value, path, y) == Set(v, path, y)
    decreases |path|
  {
    if path != [] {
      var key := path[0];
      SetTwice(Child(v.fields, key), path[1..], x, y);
      var child := Set(Child(v.fields, key), path[1..], x).value;
      var again := Set(child, path[1..], y);
      if again.Some? {
        assert v.fields[key := child][key := again.value] == v.fields[key := again.value];
      }
    }
  }

  /** Writing back what is there changes nothing. */
  lemma {:induction false} SetWhatIsThere(v: Value, path: seq<string>)
    requires Get(v, path).Some?
    ensures Set(v, path, Get(v, path).value) == Some(v)
    decreases |path|
  {
    if path != [] {
      SetWhatIsThere(v.fields[path[0]], path[1..]);
      assert v.fields[path[0] := v.fields[path[0]]] == v.fields;
    }
  }

  predicate IsPrefix(p: seq<string>, q: seq<string>) {
    p <= q
  }

  function Then(v: Option<Value>, path: seq<string>, x: Value): Option<Value> {
    match v
    case None => None
    case Some(w) => Set(w, path, x)
  }

  /** Writes to paths of which neither is a prefix of the other commute, and when
      one order fails so does the other. */
  lemma {:induction false} SetsCommute(v: Value, p: seq<string>, x: Value, q: seq<string>, y: Value)
    requires !IsPrefix(p, q) && !IsPrefix(q, p)
    ensures Then(Set(v, p, x), q, y) == Then(Set(v, q, y), p, x)
    decreases |p|
  {
    if v.Object? {
      if p[0] == q[0] {
        assert p == [p[0]] + p[1..] && q == [q[0]] + q[1..];
        SetsCommute(Child(v.fields, p[0]), p[1..], x, q[1..], y);
        SameKeyCommutes(v, p, x, q, y);
      } else {
        OtherKeyCommutes(v, p, x, q, y);
      }
    }
  }

  lemma {:induction false} SameKeyCommutes(v: Value, p: seq<string>, x: Value, q: seq<string>, y: Value)
    requires v.Object? && p != [] && q != [] && p[0] == q[0]
    requires var child := Child(v.fields, p[0]);
             Then(Set(child, p[1..], x), q[1..], y) == Then(Set(child, q[1..], y), p[1..], x)
    ensures Then(Set(v, p, x), q, y) == Then(Set(v, q, y), p, x)
  {
    var key := p[0];
    var child := Child(v.fields, key);
    SetInside(v, p, x, q, y);
    SetInside(v, q, y, p, x);
  }

  /** Two writes below one key are two writes in the child. */
  lemma {:induction false} SetInside(v: Value, p: seq<string>, x: Value, q: seq<string>, y: Value)
    requires v.Object? && p != [] && q != [] && p[0] == q[0]
    ensures var both := Then(Set(Child(v.fields, p[0]), p[1..], x), q[1..], y);
            Then(Set(v, p, x), q, y)
            == if both.None? then None else Some(Object(v.fields[p[0] := both.value]))
  {
    var key := p[0];
    var first := Set(Child(v.fields, key), p[1..], x);
    if first.Some? {
      var second := Set(first.value, q[1..], y);
      if second.Some? {
        assert v.fields[key := first.value][key := second.value] == v.fields[key := second.value];
      }
    }
  }

  lemma {:induction false} OtherKeyCommutes(v: Value, p: seq<string>, x: Value, q: seq<string>, y: Value)
    requires v.Object? && p != [] && q != [] && p[0] != q[0]
    ensures Then(Set(v, p, x), q, y) == Then(Set(v, q, y), p, x)
  {
    SetBeside(v, p, x, q, y);
    SetBeside(v, q, y, p, x);
    var a, b := Set(Child(v.fields, p[0]), p[1..], x), Set(Child(v.fields, q[0]), q[1..], y);
    if a.Some? && b.Some? {
      assert v.fields[p[0] := a.value][q[0] := b.value] == v.fields[q[0] := b.value][p[0] := a.value];
    }
  }

  /** Two writes below different keys are one write in each child. */
  lemma {:induction false} SetBeside(v: Value, p: seq<string>, x: Value, q: seq<string>, y: Value)
    requires v.Object? && p != [] && q != [] && p[0] != q[0]
    ensures var a, b := Set(Child(v.fields, p[0]), p[1..], x), Set(Child(v.fields, q[0]), q[1..], y);
            Then(Set(v, p, x), q, y)
            == if a.None? || b.None? then None else Some(Object(v.fields[p[0] := a.value][q[0] := b.value]))
  {
  }

  /** What is read at a path that is no prefix of the written one and has it as no
      prefix is what was there before. */
  lemma {:induction false} GetElsewhere(v: Value, p: seq<string>, x: Value, q: seq<string>)
    requires Set(v, p, x).Some? && !IsPrefix(p, q) && !IsPrefix(q, p)
    ensures Get(Set(v, p, x).value, q) == Get(v, q)
    decreases |p|
  {
    if p[0] == q[0] {
      assert p == [p[0]] + p[1..] && q == [q[0]] + q[1..];
      if p[0] in v.fields {
        GetElsewhere(v.fields[p[0]], p[1..], x, q[1..]);
      }
    }
  }

  /** Every node above the last segment of `path` is there and is an object. */
  ghost predicate Reachable(v: Value, path: seq<string>) {
    forall k :: 0 <= k < |path| ==> ObjectAt(v, path[..k])
  }

  predicate ObjectAt(v: Value, path: seq<string>) {
    Get(v, path).Some? && Get(v, path).value.Object?
  }

  lemma {:induction false} ReachableUnfolds(v: Value, path: seq<string>)
    requires path != []
    ensures Reachable(v, path) <==>
            v.Object? && (|path| == 1 || (path[0] in v.fields && Reachable(v.fields[path[0]], path[1..])))
  {
    var key, rest := path[0], path[1..];
    assert path[..0] == [];
    forall k | 0 < k < |path|
      ensures ObjectAt(v, path[..k]) <==> v.Object? && key in v.fields && ObjectAt(v.fields[key], rest[..k - 1])
    {
      assert path[..k][0] == key && path[..k][1..] == rest[..k - 1];
    }
    if Reachable(v, path) {
      assert ObjectAt(v, path[..0]);
      if |path| > 1 {
        assert ObjectAt(v, path[..1]);
        forall j | 0 <= j < |rest|
          ensures ObjectAt(v.fields[key], rest[..j])
        {
          assert ObjectAt(v, path[..j + 1]);
        }
      }
    }
    if v.Object? && (|path| == 1 || (key in v.fields && Reachable(v.fields[key], rest))) {
      forall k | 0 <= k < |path|
        ensures ObjectAt(v, path[..k])
      {
        if k > 0 {
          assert ObjectAt(v.fields[key], rest[..k - 1]);
        }
      }
    }
  }

  /** A write succeeds exactly when every node above its last segment is there and
      is an object. */
  lemma {:induction false} SetSucceedsIff(v: Value, path: seq<string>, x: Value)
    ensures Set(v, path, x).Some? <==> Reachable(v, path)
    decreases |path|
  {
    if path != [] {
      ReachableUnfolds(v, path);
      if v.Object? {
        SetSucceedsIff(Child(v.fields, path[0]), path[1..], x);
        if |path| > 1 {
          ReachableUnfolds(Child(v.fields, path[0]), path[1..]);
        }
      }
    }
  }
}
