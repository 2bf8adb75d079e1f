/**
 `cJSON_Compare` and `cJSON_Duplicate`.  Two trees are judged the same exactly if they
 are equal with objects taken as finite maps and in each of them members of the same
 name agree.
 */
module JsonCompare {
  import opened Octets
  import opened ByteText
  import opened JsonGrammar

  /** What two names are compared by. */
  function Key(name: Bytes, exact: bool): Bytes { if exact then name else Lower(name) }

  function Size(v: Json): nat
    decreases v
  {
    match v
    case Array(child) => 1 + SizeAll(child)
    case Object(child) => 1 + SizeAll(child)
    case _ => 1
  }

  function SizeAll(items: Items): nat
    decreases items
  {
    if items.End? then 0 else Size(items.value) + SizeAll(items.next) + 1
  }

  /** `get_object_item`: the first member of that name. */
  function Find(items: Items, name: Bytes, exact: bool): (r: Option<Json>)
    ensures r.Some? ==> Size(r.value) < SizeAll(items)
  {
    if items.End? then None
    else if Key(items.name, exact) == Key(name, exact) then Some(items.value)
    else Find(items.next, name, exact)
  }

  // ----- the comparison -----

  predicate Same(a: Json, b: Json, exact: bool)
    decreases Size(a) + Size(b), 1
  {
    match (a, b)
    case (Null, Null) => true
    case (False, False) => true
    case (True, True) => true
    case (Number(m), Number(n)) => m == n
    case (String(s), String(t)) => s == t
    case (Array(c), Array(d)) => SameAll(c, d, exact)
    case (Object(c), Object(d)) => Found(c, d, exact) && Found(d, c, exact)
    case _ => false
  }

  predicate SameAll(c: Items, d: Items, exact: bool)
    decreases SizeAll(c) + SizeAll(d), 0
  {
    match (c, d)
    case (End, End) => true
    case (Item(_, v, c'), Item(_, w, d')) => Same(v, w, exact) && SameAll(c', d', exact)
    case _ => false
  }

  /** Every member of `c` has the same value in `d`. */
  predicate Found(c: Items, d: Items, exact: bool)
    decreases SizeAll(c) + SizeAll(d), 0
  {
    c.End? ||
    (var w := Find(d, c.name, exact); w.Some? && Same(c.value, w.value, exact) && Found(c.next, d, exact))
  }

  // ----- what it decides -----

  /** A tree whose objects are finite maps. */
  datatype Norm =
    | NWord(v: Json)
    | NArray(s: seq<Norm>)
    | NObject(m: map<Bytes, Norm>)

  ghost function Meaning(v: Json, exact: bool): Norm
    decreases v
  {
    match v
    case Array(child) => NArray(Elements(child, exact))
    case Object(child) => NObject(Members(child, exact))
    case _ => NWord(v)
  }

  ghost function Elements(items: Items, exact: bool): seq<Norm>
    decreases items
  {
    if items.End? then [] else [Meaning(items.value, exact)] + Elements(items.next, exact)
  }

  ghost function Members(items: Items, exact: bool): map<Bytes, Norm>
    decreases items
  {
    if items.End? then map[] else Members(items.next, exact)[Key(items.name, exact) := Meaning(items.value, exact)]
  }

  /** Members of the same name have the same meaning, everywhere in the tree. */
  ghost predicate Coherent(v: Json, exact: bool)
    decreases v
  {
    match v
    case Array(child) => CoherentAll(child, exact, false)
    case Object(child) => CoherentAll(child, exact, true)
    case _ => true
  }

  ghost predicate CoherentAll(items: Items, exact: bool, obj: bool)
    decreases items
  {
    items.End? ||
    (Coherent(items.value, exact) && CoherentAll(items.next, exact, obj) && (obj ==> Agrees(items, exact)))
  }

  /** The first member agrees with the next of its name. */
  ghost predicate Agrees(items: Items, exact: bool)
    requires items.Item?
  {
    var w := Find(items.next, items.name, exact);
    w.Some? ==> Meaning(w.value, exact) == Meaning(items.value, exact)
  }

  /** Looking a name up is looking it up in the map. */
  lemma {:induction false} FindMember(items: Items, name: Bytes, exact: bool)
    ensures var w, k := Find(items, name, exact), Key(name, exact);
      (w.Some? <==> k in Members(items, exact)) && (w.Some? ==> Members(items, exact)[k] == Meaning(w.value, exact))
  {
    if items.Item? { FindMember(items.next, name, exact); }
  }

  lemma {:induction false} FindCoherent(items: Items, name: Bytes, exact: bool)
    requires CoherentAll(items, exact, true) && Find(items, name, exact).Some?
    ensures Coherent(Find(items, name, exact).value, exact)
  {
    if Key(items.name, exact) != Key(name, exact) { FindCoherent(items.next, name, exact); }
  }

  lemma {:induction false} FindKey(items: Items, x: Bytes, y: Bytes, exact: bool)
    requires Key(x, exact) == Key(y, exact)
    ensures Find(items, x, exact) == Find(items, y, exact)
  {
    if items.Item? { FindKey(items.next, x, y, exact); }
  }

  /** What the comparison decides, on any two trees. */
  lemma {:induction false} SameDecides(a: Json, b: Json, exact: bool)
    ensures Same(a, b, exact) <==> Coherent(a, exact) && Coherent(b, exact) && Meaning(a, exact) == Meaning(b, exact)
    decreases Size(a) + Size(b), 1
  {
    match (a, b)
    case (Array(c), Array(d)) => SameAllDecides(c, d, exact);
    case (Object(c), Object(d)) =>
      if Found(c, d, exact) { FoundCoherent(c, d, exact); }
      if Found(d, c, exact) { FoundCoherent(d, c, exact); }
      if CoherentAll(c, exact, true) && CoherentAll(d, exact, true) {
        CoherentFound(c, d, exact);
        CoherentFound(d, c, exact);
      }
      Inclusions(Members(c, exact), Members(d, exact));
    case _ =>
  }

  lemma {:induction false} SameAllDecides(c: Items, d: Items, exact: bool)
    ensures SameAll(c, d, exact) <==>
      CoherentAll(c, exact, false) && CoherentAll(d, exact, false) && Elements(c, exact) == Elements(d, exact)
    decreases SizeAll(c) + SizeAll(d), 0
  {
    if c.Item? && d.Item? {
      SameDecides(c.value, d.value, exact);
      SameAllDecides(c.next, d.next, exact);
      var x, y := Elements(c, exact), Elements(d, exact);
      assert x[1..] == Elements(c.next, exact) && y[1..] == Elements(d.next, exact);
    }
  }

  ghost predicate Within(m: map<Bytes, Norm>, n: map<Bytes, Norm>) {
    forall k :: k in m ==> k in n && n[k] == m[k]
  }

  lemma Inclusions(m: map<Bytes, Norm>, n: map<Bytes, Norm>)
    ensures Within(m, n) && Within(n, m) <==> m == n
  {
  }

  /** A member found has the same value there, whichever of its name it is. */
  lemma {:induction false} FoundAt(c: Items, d: Items, name: Bytes, exact: bool)
    requires Found(c, d, exact) && Find(c, name, exact).Some?
    ensures Find(d, name, exact).Some? && Same(Find(c, name, exact).value, Find(d, name, exact).value, exact)
  {
    if Key(c.name, exact) == Key(name, exact) {
      FindKey(d, c.name, name, exact);
    } else {
      FoundAt(c.next, d, name, exact);
    }
  }

  /** If all members of `c` are found in `d`, they agree with each other. */
  lemma {:induction false} FoundCoherent(c: Items, d: Items, exact: bool)
    requires Found(c, d, exact)
    ensures CoherentAll(c, exact, true) && Within(Members(c, exact), Members(d, exact))
    decreases SizeAll(c) + SizeAll(d), 0
  {
    if c.Item? {
      var w := Find(d, c.name, exact).value;
      SameDecides(c.value, w, exact);
      FindMember(d, c.name, exact);
      FoundCoherent(c.next, d, exact);
      var u := Find(c.next, c.name, exact);
      if u.Some? {
        FoundAt(c.next, d, c.name, exact);
        SameDecides(u.value, w, exact);
      }
      FindMember(c.next, c.name, exact);
      OneMore(Members(c.next, exact), Key(c.name, exact), Meaning(c.value, exact), Members(d, exact));
    }
  }

  lemma {:induction false} CoherentFound(c: Items, d: Items, exact: bool)
    requires CoherentAll(c, exact, true) && CoherentAll(d, exact, true)
    ensures Found(c, d, exact) <==> Within(Members(c, exact), Members(d, exact))
    decreases SizeAll(c) + SizeAll(d), 0
  {
    if c.Item? {
      var w := Find(d, c.name, exact);
      FindMember(d, c.name, exact);
      FindMember(c.next, c.name, exact);
      if w.Some? {
        FindCoherent(d, c.name, exact);
        SameDecides(c.value, w.value, exact);
      }
      CoherentFound(c.next, d, exact);
      OneMore(Members(c.next, exact), Key(c.name, exact), Meaning(c.value, exact), Members(d, exact));
    }
  }

  lemma OneMore(m: map<Bytes, Norm>, k: Bytes, x: Norm, n: map<Bytes, Norm>)
    requires k in m ==> m[k] == x
    ensures Within(m[k := x], n) <==> Within(m, n) && k in n && n[k] == x
  {
    var m' := m[k := x];
    if Within(m', n) {
      assert k in m';
      forall j | j in m ensures j in n && n[j] == m[j] {
        assert j in m';
      }
    }
  }

  /** So it is symmetric and transitive on all trees, and reflexive exactly on those
      whose members of the same name agree. */
  lemma SameEquivalence(a: Json, b: Json, c: Json, exact: bool)
    ensures Same(a, a, exact) <==> Coherent(a, exact)
    ensures Same(a, b, exact) ==> Same(b, a, exact)
    ensures Same(a, b, exact) && Same(b, c, exact) ==> Same(a, c, exact)
  {
    SameDecides(a, a, exact);
    SameDecides(a, b, exact);
    SameDecides(b, a, exact);
    SameDecides(b, c, exact);
    SameDecides(a, c, exact);
  }

  /** An object with a repeated name whose members disagree is not the same as its copy;
      with members that agree it is. */
  lemma RepeatedName(name: Bytes, x: Json, y: Json, exact: bool)
    requires Coherent(x, exact) && Coherent(y, exact)
    ensures var v := Object(Item(name, x, Item(name, y, End)));
      Same(v, v, exact) <==> Meaning(x, exact) == Meaning(y, exact)
  {
    var c := Item(name, x, Item(name, y, End));
    assert Find(c.next, name, exact) == Some(y);
    assert Find(c.next.next, name, exact) == None;
    assert CoherentAll(End, exact, true) && Agrees(c.next, exact);
    assert CoherentAll(c.next, exact, true);
    assert CoherentAll(c, exact, true) <==> Agrees(c, exact);
    SameDecides(Object(c), Object(c), exact);
  }

  lemma TrueAndFalse(name: Bytes, exact: bool)
    ensures var v := Object(Item(name, True, Item(name, False, End))); !Same(v, v, exact)
  {
    RepeatedName(name, True, False, exact);
  }

  /** No object has two members of the same name. */
  ghost predicate Distinct(v: Json, exact: bool)
    decreases v
  {
    match v
    case Array(child) => DistinctAll(child, exact, false)
    case Object(child) => DistinctAll(child, exact, true)
    case _ => true
  }

  ghost predicate DistinctAll(items: Items, exact: bool, obj: bool)
    decreases items
  {
    items.End? ||
    (Distinct(items.value, exact) && DistinctAll(items.next, exact, obj) && (obj ==> Find(items.next, items.name, exact) == None))
  }

  /** Without repeated names there is nothing to disagree about. */
  lemma {:induction false} DistinctCoherent(v: Json, exact: bool)
    requires Distinct(v, exact)
    ensures Coherent(v, exact)
    decreases v
  {
    match v
    case Array(child) => DistinctAllCoherent(child, exact, false);
    case Object(child) => DistinctAllCoherent(child, exact, true);
    case _ =>
  }

  lemma {:induction false} DistinctAllCoherent(items: Items, exact: bool, obj: bool)
    requires DistinctAll(items, exact, obj)
    ensures CoherentAll(items, exact, obj)
    decreases items
  {
    if items.Item? {
      DistinctCoherent(items.value, exact);
      DistinctAllCoherent(items.next, exact, obj);
    }
  }

  /** The order of members of different names does not matter. */
  lemma MembersSwap(x: Bytes, v: Json, y: Bytes, w: Json, rest: Items, exact: bool)
    requires Key(x, exact) != Key(y, exact)
    requires CoherentAll(Item(x, v, Item(y, w, rest)), exact, true)
    ensures Same(Object(Item(x, v, Item(y, w, rest))), Object(Item(y, w, Item(x, v, rest))), exact)
  {
    var c, d := Item(x, v, Item(y, w, rest)), Item(y, w, Item(x, v, rest));
    assert Find(c.next, x, exact) == Find(rest, x, exact);
    assert Find(d.next, y, exact) == Find(rest, y, exact);
    assert CoherentAll(c.next, exact, true) && Agrees(c, exact) && Agrees(c.next, exact);
    assert Agrees(d, exact) && Agrees(d.next, exact);
    assert CoherentAll(d.next, exact, true) && CoherentAll(d, exact, true);
    assert Members(c, exact) == Members(d, exact);
    SameDecides(Object(c), Object(d), exact);
  }

  // ----- the loops -----

  /** `case_insensitive_strcmp`, on C strings, answering whether it gives 0. */
  method SameLetters(s: Bytes, t: Bytes) returns (r: bool)
    requires 0 !in s && 0 !in t
    ensures r <==> Lower(s) == Lower(t)
  {
    var i := 0;
    while i < |s| && i < |t| && ToLower(s[i]) == ToLower(t[i])
      invariant i <= |s| && i <= |t| && forall k :: 0 <= k < i ==> ToLower(s[k]) == ToLower(t[k])
    {
      i := i + 1;
    }
    if i < |s| && i < |t| {
      assert Lower(s)[i] != Lower(t)[i];
    }
    return i == |s| && i == |t|;
  }

  ghost predicate CNames(items: Items) {
    items.End? || (0 !in items.name && CNamesIn(items.value) && CNames(items.next))
  }

  /** Names are C strings. */
  ghost predicate CNamesIn(v: Json) {
    match v
    case Array(child) => CNames(child)
    case Object(child) => CNames(child)
    case _ => true
  }

  lemma {:induction false} FoundNames(items: Items, name: Bytes, exact: bool)
    requires CNames(items) && Find(items, name, exact).Some?
    ensures CNamesIn(Find(items, name, exact).value)
  {
    if Key(items.name, exact) != Key(name, exact) { FoundNames(items.next, name, exact); }
  }

  /** `get_object_item`. */
  method GetObjectItem(child: Items, name: Bytes, exact: bool) returns (r: Option<Json>)
    requires CNames(child) && 0 !in name
    ensures r == Find(child, name, exact)
  {
    var current := child;
    while current.Item?
      invariant CNames(current) && Find(child, name, exact) == Find(current, name, exact)
      decreases current
    {
      var equal;
      if exact {
        equal := name == current.name;
      } else {
        equal := SameLetters(name, current.name);
      }
      if equal {
        return Some(current.value);
      }
      current := current.next;
    }
    return None;
  }

  /** `cJSON_Compare`; `identical` tells that the two pointers are the same. */
  method ComparePointers(a: Json, b: Json, identical: bool, exact: bool) returns (r: bool)
    requires CNamesIn(a) && CNamesIn(b) && (identical ==> a == b)
    ensures r <==> identical || Same(a, b, exact)
  {
    if identical {
      return true;
    }
    r := Compare(a, b, exact);
  }

  /** What follows the shortcut for identical pointers; the items of two trees are
      different ones. */
  method Compare(a: Json, b: Json, exact: bool) returns (r: bool)
    requires CNamesIn(a) && CNamesIn(b)
    ensures r == Same(a, b, exact)
    decreases Size(a) + Size(b), 1
  {
    match (a, b) {
      case (Null, Null) => r := true;
      case (False, False) => r := true;
      case (True, True) => r := true;
      case (Number(m), Number(n)) => r := m == n;
      case (String(s), String(t)) => r := s == t;
      case (Array(c), Array(d)) => r := CompareElements(c, d, exact);
      case (Object(c), Object(d)) =>
        r := CompareMembers(c, d, exact);
        if r {
          r := CompareMembers(d, c, exact);
        }
      case _ => r := false;
    }
  }

  method CompareElements(c: Items, d: Items, exact: bool) returns (r: bool)
    requires CNames(c) && CNames(d)
    ensures r == SameAll(c, d, exact)
    decreases SizeAll(c) + SizeAll(d), 0
  {
    var x, y := c, d;
    while x.Item? && y.Item?
      invariant CNames(x) && CNames(y) && SameAll(c, d, exact) == SameAll(x, y, exact)
      invariant SizeAll(x) <= SizeAll(c) && SizeAll(y) <= SizeAll(d)
      decreases x
    {
      var same := Compare(x.value, y.value, exact);
      if !same {
        return false;
      }
      x, y := x.next, y.next;
    }
    return x.End? && y.End?;
  }

  /** One of the two loops over members. */
  method CompareMembers(c: Items, d: Items, exact: bool) returns (r: bool)
    requires CNames(c) && CNames(d)
    ensures r == Found(c, d, exact)
    decreases SizeAll(c) + SizeAll(d), 0
  {
    var x := c;
    while x.Item?
      invariant CNames(x) && SizeAll(x) <= SizeAll(c) && Found(c, d, exact) == Found(x, d, exact)
      decreases x
    {
      var w := GetObjectItem(d, x.name, exact);
      if w.None? {
        return false;
      }
      FoundNames(d, x.name, exact);
      var same := Compare(x.value, w.value, exact);
      if !same {
        return false;
      }
      x := x.next;
    }
    return true;
  }

  /** `cJSON_Duplicate`. */
  method Duplicate(item: Json, recurse: bool) returns (copy: Json)
    ensures recurse ==> copy == item
    ensures !recurse ==> copy == match item case Array(_) => Array(End) case Object(_) => Object(End) case _ => item
    decreases item
  {
    match item {
      case Array(child) =>
        var c := End;
        if recurse {
          c := DuplicateAll(child);
        }
        copy := Array(c);
      case Object(child) =>
        var c := End;
        if recurse {
          c := DuplicateAll(child);
        }
        copy := Object(c);
      case _ => copy := item;
    }
  }

  method DuplicateAll(child: Items) returns (c: Items)
    ensures c == child
    decreases child
  {
    c := End;
    var current := child;
    while current.Item?
      invariant child == Append(c, current)
      invariant current.Item? ==> current < child || current == child
      decreases current
    {
      var v := Duplicate(current.value, true);
      AppendOne(c, current.name, current.value, current.next);
      c, current := Append(c, Item(current.name, v, End)), current.next;
    }
    AppendEnd(c);
  }

  /** A tree is judged the same as its duplicate exactly if its members of the same name
      agree. */
  method CompareWithCopy(item: Json, exact: bool) returns (r: bool)
    requires CNamesIn(item)
    ensures r <==> Coherent(item, exact)
  {
    var copy := Duplicate(item, true);
    r := ComparePointers(item, copy, false, exact);
    SameDecides(item, copy, exact);
  }

  // ----- lookup in numbers -----

  /** The same name, or the same but for the case of the 26 letters. */
  predicate Alike(a: Bytes, b: Bytes, exact: bool) {
    if exact then a == b else |a| == |b| && forall k :: 0 <= k < |a| ==> SameLetter(a[k], b[k])
  }

  predicate SameLetter(x: byte, y: byte) { x == y || (65 <= x <= 90 && y == x + 32) || (65 <= y <= 90 && x == y + 32) }

  lemma AlikeKeys(a: Bytes, b: Bytes, exact: bool)
    ensures Alike(a, b, exact) <==> Key(a, exact) == Key(b, exact)
  {
    if !exact && Key(a, exact) == Key(b, exact) {
      forall k | 0 <= k < |a| ensures SameLetter(a[k], b[k]) {
        assert Lower(a)[k] == Lower(b)[k];
      }
    }
  }

  function Pairs(items: Items): seq<(Bytes, Json)> {
    if items.End? then [] else [(items.name, items.value)] + Pairs(items.next)
  }

  ghost predicate FirstAlike(s: seq<(Bytes, Json)>, name: Bytes, exact: bool, i: nat) {
    i < |s| && Alike(s[i].0, name, exact) && forall j :: 0 <= j < i ==> !Alike(s[j].0, name, exact)
  }

  /** A lookup finds the first member of a name that is alike, or there is none. */
  lemma {:induction false} FindsFirst(items: Items, name: Bytes, exact: bool) returns (i: nat)
    ensures i <= |Pairs(items)|
    ensures i < |Pairs(items)| ==> FirstAlike(Pairs(items), name, exact, i) && Find(items, name, exact) == Some(Pairs(items)[i].1)
    ensures i == |Pairs(items)| ==>
      Find(items, name, exact).None? && forall j :: 0 <= j < |Pairs(items)| ==> !Alike(Pairs(items)[j].0, name, exact)
  {
    i := 0;
    if items.Item? {
      AlikeKeys(items.name, name, exact);
      if !Alike(items.name, name, exact) {
        var k := FindsFirst(items.next, name, exact);
        i := k + 1;
      }
    }
  }
}
