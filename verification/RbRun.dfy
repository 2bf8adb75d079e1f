/**
 Whole runs of the red-black tree: whatever mixture of inserts, deletes and
 searches a client makes, it sees a finite map.
 */
module RbRun {
  import opened RbModel
  import opened RbTree

  /** `Remove` is the client's search followed by `rb_delete` of what it found. */
  datatype Op = Put(x: Addr) | Remove(key: int) | Find(key: int)

  datatype Answer = Code(ret: int) | Got(node: Addr)

  // ----- the specification: a finite map from keys to nodes -----

  function Lookup(d: map<int, Addr>, key: int): Addr {
    if key in d then d[key] else NULL
  }

  predicate Known(keys: map<Addr, int>, ops: seq<Op>) {
    forall i :: 0 <= i < |ops| && ops[i].Put? ==> ops[i].x in keys
  }

  function MapStep(d: map<int, Addr>, keys: map<Addr, int>, op: Op): (map<int, Addr>, Answer)
    requires Known(keys, [op])
  {
    match op
    case Put(x) =>
      assert [op][0] == op;
      if keys[x] in d then (d, Code(-1)) else (d[keys[x] := x], Code(1))
    case Remove(key) => (d - {key}, Got(Lookup(d, key)))
    case Find(key) => (d, Got(Lookup(d, key)))
  }

  function MapRun(d: map<int, Addr>, keys: map<Addr, int>, ops: seq<Op>): seq<Answer>
    requires Known(keys, ops)
    decreases |ops|
  {
    if ops == [] then []
    else
      var (d', answer) := MapStep(d, keys, ops[0]);
      [answer] + MapRun(d', keys, ops[1..])
  }

  // ----- the tree against it -----

  ghost predicate KeysFixed(m: Mem, keys: map<Addr, int>) {
    NIL !in keys && NULL !in keys && forall a :: a in keys ==> a in m && m[a].key == keys[a]
  }

  /** Nodes outside the tree keep their fields, and those in it are where the map says. */
  lemma KeysStay(m: Mem, m': Mem, t: Tree, root: Addr, keys: map<Addr, int>)
    requires At(m', t, Top, root)
    requires KeysFixed(m, keys) && Except(m, m', Nodes(t) + {NIL})
    requires forall a :: a in Nodes(t) ==>
      a in m && m[a].key in ToMap(Inorder(t)) && ToMap(Inorder(t))[m[a].key] == a
    ensures KeysFixed(m', keys)
  {
    forall a | a in keys ensures a in m' && m'[a].key == keys[a] {
      if a in Nodes(t) { MapKey(m', t, root, m[a].key); }
    }
  }

  method PutNode(t: RbTree, x: Addr, ghost keys: map<Addr, int>) returns (answer: Answer)
    requires t.Valid() && KeysFixed(t.mem, keys) && x in keys
    modifies t
    ensures t.Valid() && KeysFixed(t.mem, keys)
    ensures (t.Contents(), answer) == MapStep(old(t.Contents()), keys, Put(x))
  {
    ghost var m, u, r := t.mem, t.tree, t.root;
    var ret := t.Insert(x);
    if ret == 1 {
      forall a | a in Nodes(t.tree)
        ensures a in m && m[a].key in t.Contents() && t.Contents()[m[a].key] == a
      {
        if a in Nodes(u) { NodeKey(m, u, r, a); }
      }
      KeysStay(m, t.mem, t.tree, t.root, keys);
    }
    answer := Code(ret);
  }

  method RemoveKey(t: RbTree, key: int, ghost keys: map<Addr, int>) returns (answer: Answer)
    requires t.Valid() && KeysFixed(t.mem, keys)
    modifies t
    ensures t.Valid() && KeysFixed(t.mem, keys)
    ensures (t.Contents(), answer) == MapStep(old(t.Contents()), keys, Remove(key))
  {
    ghost var m, u, r := t.mem, t.tree, t.root;
    var z, path := t.Search(key);
    answer := Got(z);
    if z == NULL {
      assert key !in t.Contents() by {
        if key in t.Contents() { MapKey(m, u, r, key); }
      }
      assert t.Contents() - {key} == t.Contents();
    } else {
      MapKey(m, u, r, key);
      var _ := t.Delete(z);
      forall a | a in Nodes(t.tree)
        ensures a in m && m[a].key in t.Contents() && t.Contents()[m[a].key] == a
      {
        NodeKey(m, u, r, a);
      }
      KeysStay(m, t.mem, t.tree, t.root, keys);
    }
  }

  method Step(t: RbTree, op: Op, ghost keys: map<Addr, int>) returns (answer: Answer)
    requires t.Valid() && KeysFixed(t.mem, keys) && Known(keys, [op])
    modifies t
    ensures t.Valid() && KeysFixed(t.mem, keys)
    ensures (t.Contents(), answer) == MapStep(old(t.Contents()), keys, op)
  {
    assert [op][0] == op;
    match op {
      case Put(x) => answer := PutNode(t, x, keys);
      case Remove(key) => answer := RemoveKey(t, key, keys);
      case Find(key) =>
        var r, path := t.Search(key);
        answer := Got(r);
    }
  }

  lemma RunOnce(d: map<int, Addr>, keys: map<Addr, int>, ops: seq<Op>, i: nat, d': map<int, Addr>, answer: Answer)
    requires Known(keys, ops) && i < |ops| && Known(keys, [ops[i]])
    requires (d', answer) == MapStep(d, keys, ops[i])
    ensures MapRun(d, keys, ops[i..]) == [answer] + MapRun(d', keys, ops[i + 1..])
  {
    assert ops[i..][1..] == ops[i + 1..];
  }

  /** Any run on an initially empty tree answers as the finite map does. */
  method Replay(memory: Mem, ghost keys: map<Addr, int>, ops: seq<Op>) returns (answers: seq<Answer>)
    requires NIL in memory && KeysFixed(memory, keys) && Known(keys, ops)
    ensures answers == MapRun(map[], keys, ops)
  {
    var t := new RbTree(memory);
    answers := [];
    assert ops[0..] == ops;
    ghost var all := MapRun(map[], keys, ops);
    for i := 0 to |ops|
      invariant t.Valid() && KeysFixed(t.mem, keys)
      invariant answers + MapRun(t.Contents(), keys, ops[i..]) == all
    {
      ghost var d := t.Contents();
      assert [ops[i]][0] == ops[i];
      var answer := Step(t, ops[i], keys);
      RunOnce(d, keys, ops, i, t.Contents(), answer);
      Shift(answers, answer, MapRun(t.Contents(), keys, ops[i + 1..]));
      answers := answers + [answer];
    }
  }

  lemma Shift(a: seq<Answer>, x: Answer, b: seq<Answer>)
    ensures a + ([x] + b) == a + [x] + b
  {
  }
}
