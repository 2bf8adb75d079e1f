/**
 The value side of the red-black tree of `rbtree.c`: trees and zipper paths whose
 nodes are addresses, and what it means for memory to spell out such a tree.
 Colours, black heights and key order are stated here, on values; `RbTree` ties
 them to the memory that the C functions overwrite.
 */
module RbModel {

  datatype Color = Red | Black

  type Addr = nat

  /** The address of the sentinel embedded in `struct rb_tree`. */
  const NIL: Addr := 0

  /** The null pointer: no node lives there. */
  const NULL: Addr := 1

  /** `struct rb_node` */
  datatype Node = Node(color: Color, key: int, lchild: Addr, rchild: Addr, parent: Addr)

  type Mem = map<Addr, Node>

  datatype Tree = Leaf | Br(l: Tree, n: Addr, c: Color, k: int, r: Tree)

  /** A tree with a hole; `GoL` says that the hole lies in the left subtree of `n`. */
  datatype Path =
    | Top
    | GoL(up: Path, n: Addr, c: Color, k: int, r: Tree)
    | GoR(up: Path, l: Tree, n: Addr, c: Color, k: int)

  type Entry = (Addr, int)

  ghost function Plug(p: Path, t: Tree): Tree
    decreases p
  {
    match p
    case Top => t
    case GoL(up, n, c, k, r) => Plug(up, Br(t, n, c, k, r))
    case GoR(up, l, n, c, k) => Plug(up, Br(l, n, c, k, t))
  }

  ghost function PathLen(p: Path): nat {
    if p.Top? then 0 else 1 + PathLen(p.up)
  }

  // ----- contents -----

  ghost function Nodes(t: Tree): set<Addr> {
    match t
    case Leaf => {}
    case Br(l, n, _, _, r) => Nodes(l) + {n} + Nodes(r)
  }

  ghost function PNodes(p: Path): set<Addr> {
    match p
    case Top => {}
    case GoL(up, n, _, _, r) => PNodes(up) + {n} + Nodes(r)
    case GoR(up, l, n, _, _) => PNodes(up) + {n} + Nodes(l)
  }

  ghost function Inorder(t: Tree): seq<Entry> {
    match t
    case Leaf => []
    case Br(l, n, _, k, r) => Inorder(l) + [(n, k)] + Inorder(r)
  }

  /** The entries before and after the hole. */
  ghost function Pre(p: Path): seq<Entry> {
    match p
    case Top => []
    case GoL(up, _, _, _, _) => Pre(up)
    case GoR(up, l, n, _, k) => Pre(up) + (Inorder(l) + [(n, k)])
  }

  ghost function Post(p: Path): seq<Entry> {
    match p
    case Top => []
    case GoL(up, n, _, k, r) => ([(n, k)] + Inorder(r)) + Post(up)
    case GoR(up, _, _, _, _) => Post(up)
  }

  lemma Regroup<E>(a: seq<E>, b: seq<E>, c: seq<E>, d: seq<E>, e: seq<E>)
    ensures a + (b + c + d) + e == a + b + ((c + d) + e)
    ensures a + (b + c + d) + e == (a + (b + c)) + d + e
  {
  }

  lemma {:induction false} PlugInorder(p: Path, t: Tree)
    ensures Inorder(Plug(p, t)) == Pre(p) + Inorder(t) + Post(p)
    decreases p
  {
    match p
    case Top =>
    case GoL(up, n, c, k, r) =>
      PlugInorder(up, Br(t, n, c, k, r));
      Regroup(Pre(up), Inorder(t), [(n, k)], Inorder(r), Post(up));
    case GoR(up, l, n, c, k) =>
      PlugInorder(up, Br(l, n, c, k, t));
      Regroup(Pre(up), Inorder(l), [(n, k)], Inorder(t), Post(up));
  }

  lemma SameInorder(p: Path, t: Tree, t': Tree)
    requires Inorder(t) == Inorder(t')
    ensures Inorder(Plug(p, t)) == Inorder(Plug(p, t'))
  {
    PlugInorder(p, t); PlugInorder(p, t');
  }

  lemma {:induction false} PlugNodes(p: Path, t: Tree)
    ensures Nodes(Plug(p, t)) == PNodes(p) + Nodes(t)
    decreases p
  {
    match p
    case Top =>
    case GoL(up, n, c, k, r) => PlugNodes(up, Br(t, n, c, k, r));
    case GoR(up, l, n, c, k) => PlugNodes(up, Br(l, n, c, k, t));
  }

  ghost predicate Sorted(s: seq<Entry>) {
    forall i, j :: 0 <= i < j < |s| ==> s[i].1 < s[j].1
  }

  /** The finite map a sequence of entries stands for. */
  ghost function ToMap(s: seq<Entry>): map<int, Addr> {
    if s == [] then map[] else ToMap(s[..|s| - 1])[s[|s| - 1].1 := s[|s| - 1].0]
  }

  lemma {:induction false} ToMapKeys(s: seq<Entry>, k: int)
    ensures k in ToMap(s) <==> exists i :: 0 <= i < |s| && s[i].1 == k
  {
    if s != [] {
      var n := |s| - 1;
      ToMapKeys(s[..n], k);
      assert forall i :: 0 <= i < n ==> s[..n][i] == s[i];
    }
  }

  /** In a sorted sequence every entry is what the map says. */
  lemma {:induction false} ToMapAt(s: seq<Entry>, i: nat)
    requires Sorted(s) && i < |s|
    ensures s[i].1 in ToMap(s) && ToMap(s)[s[i].1] == s[i].0
  {
    var n := |s| - 1;
    if i < n { ToMapAt(s[..n], i); }
  }

  lemma {:induction false} ToMapAdd(a: seq<Entry>, e: Entry, b: seq<Entry>)
    requires Sorted(a + [e] + b)
    ensures ToMap(a + [e] + b) == ToMap(a + b)[e.1 := e.0]
    ensures e.1 !in ToMap(a + b)
    decreases |b|
  {
    var s := a + [e] + b;
    if b == [] {
      assert s[..|s| - 1] == a && a + b == a;
      ToMapKeys(a, e.1);
      assert forall i :: 0 <= i < |a| ==> s[i] == a[i];
      assert s[|a|] == e;
    } else {
      var b', f := b[..|b| - 1], b[|b| - 1];
      assert s[..|s| - 1] == a + [e] + b' && s[|s| - 1] == f;
      assert (a + b)[..|a + b| - 1] == a + b' && (a + b)[|a + b| - 1] == f;
      assert s[|a|] == e;
      ToMapAdd(a, e, b');
    }
  }

  ghost predicate Below(s: seq<Entry>, k: int) {
    forall i :: 0 <= i < |s| ==> s[i].1 < k
  }

  ghost predicate Above(s: seq<Entry>, k: int) {
    forall i :: 0 <= i < |s| ==> k < s[i].1
  }

  /** Every key before the hole of `p` is below `k`, every key after it above. */
  ghost predicate Fits(p: Path, k: int) {
    Below(Pre(p), k) && Above(Post(p), k)
  }

  lemma SortedAround(a: seq<Entry>, b: seq<Entry>, e: Entry, c: seq<Entry>, d: seq<Entry>)
    requires Sorted(a + (b + [e] + c) + d)
    ensures Below(b, e.1) && Above(c, e.1)
  {
    var s := a + (b + [e] + c) + d;
    assert s[|a| + |b|] == e;
    assert forall i :: 0 <= i < |b| ==> s[|a| + i] == b[i];
    assert forall i :: 0 <= i < |c| ==> s[|a| + |b| + 1 + i] == c[i];
  }

  /** The step of every descent: going towards `k` keeps the rest on its side. */
  lemma FitsDown(p: Path, t: Tree, k: int)
    requires t.Br? && Fits(p, k) && Sorted(Inorder(Plug(p, t)))
    ensures k < t.k ==> Fits(GoL(p, t.n, t.c, t.k, t.r), k)
    ensures k > t.k ==> Fits(GoR(p, t.l, t.n, t.c, t.k), k)
  {
    PlugInorder(p, t);
    SortedAround(Pre(p), Inorder(t.l), (t.n, t.k), Inorder(t.r), Post(p));
  }

  lemma FitsSide(p: Path, k: int)
    requires Fits(p, k) && !p.Top?
    ensures if p.GoL? then k < p.k else k > p.k
  {
    if p.GoL? {
      assert Post(p)[0] == (p.n, p.k);
    } else {
      assert Pre(p)[|Pre(p)| - 1] == (p.n, p.k);
    }
  }

  /** Filling the hole with one entry that fits. */
  lemma FitsGrow(p: Path, x: Addr, k: int)
    requires Fits(p, k) && Sorted(Inorder(Plug(p, Leaf)))
    ensures var t := Br(Leaf, x, Red, k, Leaf);
      && Sorted(Inorder(Plug(p, t)))
      && ToMap(Inorder(Plug(p, t))) == ToMap(Inorder(Plug(p, Leaf)))[k := x]
  {
    var t := Br(Leaf, x, Red, k, Leaf);
    PlugInorder(p, t);
    PlugInorder(p, Leaf);
    var a, b, s := Pre(p), Post(p), Inorder(Plug(p, t));
    assert s == a + [(x, k)] + b && Inorder(Plug(p, Leaf)) == a + b;
    SortedInsert(a, (x, k), b);
    ToMapAdd(a, (x, k), b);
  }

  lemma SortedInsert(a: seq<Entry>, e: Entry, b: seq<Entry>)
    requires Sorted(a + b) && Below(a, e.1) && Above(b, e.1)
    ensures Sorted(a + [e] + b)
  {
    var s := a + [e] + b;
    assert forall i :: 0 <= i < |a| ==> s[i] == (a + b)[i];
    assert forall i :: |a| < i < |s| ==> s[i] == (a + b)[i - 1] == b[i - |a| - 1];
  }

  lemma SortedRemove(a: seq<Entry>, e: Entry, b: seq<Entry>)
    requires Sorted(a + [e] + b)
    ensures Sorted(a + b)
  {
    var s := a + [e] + b;
    forall i, j | 0 <= i < j < |a + b| ensures (a + b)[i].1 < (a + b)[j].1 {
      assert (a + b)[i] == s[if i < |a| then i else i + 1];
      assert (a + b)[j] == s[if j < |a| then j else j + 1];
    }
  }

  lemma ToMapDrop(a: seq<Entry>, e: Entry, b: seq<Entry>)
    requires Sorted(a + [e] + b)
    ensures Sorted(a + b) && ToMap(a + b) == ToMap(a + [e] + b) - {e.1}
  {
    SortedRemove(a, e, b);
    ToMapAdd(a, e, b);
  }

  lemma FitsNone(p: Path, k: int)
    requires Fits(p, k)
    ensures k !in ToMap(Inorder(Plug(p, Leaf)))
  {
    PlugInorder(p, Leaf);
    ToMapKeys(Inorder(Plug(p, Leaf)), k);
  }

  lemma FitsFound(p: Path, t: Tree)
    requires t.Br? && Sorted(Inorder(Plug(p, t)))
    ensures t.k in ToMap(Inorder(Plug(p, t))) && ToMap(Inorder(Plug(p, t)))[t.k] == t.n
  {
    PlugInorder(p, t);
    var s := Inorder(Plug(p, t));
    var i := |Pre(p)| + |Inorder(t.l)|;
    assert s[i] == (t.n, t.k);
    ToMapAt(s, i);
  }

  // ----- no node occurs twice -----

  ghost predicate Sep(t: Tree) {
    match t
    case Leaf => true
    case Br(l, n, _, _, r) =>
      && n !in Nodes(l) && n !in Nodes(r) && Nodes(l) !! Nodes(r)
      && Sep(l) && Sep(r)
  }

  ghost predicate PSep(p: Path) {
    match p
    case Top => true
    case GoL(up, n, _, _, t) =>
      n !in Nodes(t) && n !in PNodes(up) && Nodes(t) !! PNodes(up) && Sep(t) && PSep(up)
    case GoR(up, t, n, _, _) =>
      n !in Nodes(t) && n !in PNodes(up) && Nodes(t) !! PNodes(up) && Sep(t) && PSep(up)
  }

  // ----- the red-black properties -----

  ghost function ColorOf(t: Tree): Color {
    if t.Leaf? then Black else t.c
  }

  /** `t` with its root painted `c`. */
  ghost function Dye(t: Tree, c: Color): Tree {
    if t.Leaf? then t else t.(c := c)
  }

  function Weight(c: Color): nat {
    if c == Black then 1 else 0
  }

  /** Every way down `t` passes exactly `h` black nodes. */
  ghost predicate Bal(t: Tree, h: int) {
    match t
    case Leaf => h == 0
    case Br(l, _, c, _, r) => Bal(l, h - Weight(c)) && Bal(r, h - Weight(c))
  }

  ghost function Bh(t: Tree): nat {
    if t.Leaf? then 0 else Bh(t.l) + Weight(t.c)
  }

  /** No red node of `t` has a red child. */
  ghost predicate NoRR(t: Tree) {
    match t
    case Leaf => true
    case Br(l, _, c, _, r) =>
      && NoRR(l) && NoRR(r)
      && (c == Red ==> ColorOf(l) == Black && ColorOf(r) == Black)
  }

  /** As `NoRR`, except that the root itself may clash with its children. */
  ghost predicate BelowNoRR(t: Tree) {
    t.Br? ==> NoRR(t.l) && NoRR(t.r)
  }

  ghost predicate RedBlack(t: Tree) {
    Bal(t, Bh(t)) && NoRR(t) && ColorOf(t) == Black
  }

  /** Putting a tree of black height `h` in the hole balances the whole. */
  ghost predicate PBal(p: Path, h: int) {
    match p
    case Top => true
    case GoL(up, _, c, _, t) => Bal(t, h) && PBal(up, h + Weight(c))
    case GoR(up, t, _, c, _) => Bal(t, h) && PBal(up, h + Weight(c))
  }

  /** The path has no red-red edge if the hole gets a root of colour `c`.  At the
      top of the tree only a black root will do. */
  ghost predicate PNoRR(p: Path, c: Color) {
    match p
    case Top => c == Black
    case GoL(up, _, d, _, t) =>
      && NoRR(t) && (d == Red ==> c == Black && ColorOf(t) == Black) && PNoRR(up, d)
    case GoR(up, t, _, d, _) =>
      && NoRR(t) && (d == Red ==> c == Black && ColorOf(t) == Black) && PNoRR(up, d)
  }

  lemma {:induction false} BalUnique(t: Tree, h: int)
    requires Bal(t, h)
    ensures h == Bh(t)
  {
    if t.Br? { BalUnique(t.l, h - Weight(t.c)); }
  }

  lemma {:induction false} PlugBal(p: Path, t: Tree, h: int)
    requires PBal(p, h) && Bal(t, h)
    ensures Bal(Plug(p, t), Bh(Plug(p, t)))
    decreases p
  {
    match p
    case Top => BalUnique(t, h);
    case GoL(up, n, c, k, r) => PlugBal(up, Br(t, n, c, k, r), h + Weight(c));
    case GoR(up, l, n, c, k) => PlugBal(up, Br(l, n, c, k, t), h + Weight(c));
  }

  lemma {:induction false} PlugNoRR(p: Path, t: Tree)
    requires PNoRR(p, ColorOf(t)) && NoRR(t)
    ensures NoRR(Plug(p, t)) && ColorOf(Plug(p, t)) == Black
    decreases p
  {
    match p
    case Top =>
    case GoL(up, n, c, k, r) => PlugNoRR(up, Br(t, n, c, k, r));
    case GoR(up, l, n, c, k) => PlugNoRR(up, Br(l, n, c, k, t));
  }

  /** A path cut out of a red-black tree is balanced and free of red-red edges. */
  lemma {:induction false} UnplugRedBlack(p: Path, t: Tree, h: int)
    requires Bal(Plug(p, t), h) && NoRR(Plug(p, t)) && ColorOf(Plug(p, t)) == Black
    ensures Bal(t, Bh(t)) && PBal(p, Bh(t)) && NoRR(t) && PNoRR(p, ColorOf(t))
    decreases p
  {
    match p
    case Top => BalUnique(t, h);
    case GoL(up, n, c, k, r) =>
      var t' := Br(t, n, c, k, r);
      UnplugRedBlack(up, t', h);
      BalUnique(t, Bh(t') - Weight(c));
    case GoR(up, l, n, c, k) =>
      var t' := Br(l, n, c, k, t);
      UnplugRedBlack(up, t', h);
      BalUnique(t, Bh(t') - Weight(c));
  }

  lemma {:induction false} PNoRRBlack(p: Path, c: Color)
    requires PNoRR(p, c)
    ensures PNoRR(p, Black)
  {
  }

  // ----- what memory spells out -----

  ghost function RootOf(t: Tree): Addr {
    if t.Leaf? then NIL else t.n
  }

  /** The node above the hole; `tp` stands above the top. */
  ghost function Par(p: Path, tp: Addr): Addr {
    if p.Top? then tp else p.n
  }

  ghost predicate Holds(m: Mem, n: Addr, v: Node) {
    n in m && m[n] == v
  }

  ghost predicate Linked(m: Mem, t: Tree, par: Addr) {
    match t
    case Leaf => true
    case Br(l, n, c, k, r) =>
      && Holds(m, n, Node(c, k, RootOf(l), RootOf(r), par))
      && Linked(m, l, n) && Linked(m, r, n)
  }

  /** The nodes of `p` are linked, the hole holds `x`, `root` points at the
      topmost node and that node's parent is `tp`. */
  ghost predicate PLinked(m: Mem, p: Path, x: Addr, root: Addr, tp: Addr) {
    match p
    case Top => x == root
    case GoL(up, n, c, k, r) =>
      && Holds(m, n, Node(c, k, x, RootOf(r), Par(up, tp)))
      && Linked(m, r, n) && PLinked(m, up, n, root, tp)
    case GoR(up, l, n, c, k) =>
      && Holds(m, n, Node(c, k, RootOf(l), x, Par(up, tp)))
      && Linked(m, l, n) && PLinked(m, up, n, root, tp)
  }

  ghost predicate Apart(t: Tree, p: Path) {
    Sep(t) && PSep(p) && Nodes(t) !! PNodes(p) && NIL !in Nodes(t) && NIL !in PNodes(p)
  }

  /** Memory below `root` is the tree `Plug(p, t)`, looked at from `t`. */
  ghost predicate At(m: Mem, t: Tree, p: Path, root: Addr) {
    Apart(t, p) && Linked(m, t, Par(p, NIL)) && PLinked(m, p, RootOf(t), root, NIL)
  }

  /** Moving the focus up to the root and down again loses nothing. */
  lemma {:induction false} Refocus(m: Mem, p: Path, t: Tree, root: Addr)
    ensures At(m, t, p, root) <==> At(m, Plug(p, t), Top, root)
    decreases p
  {
    match p
    case Top =>
    case GoL(up, n, c, k, r) => Refocus(m, up, Br(t, n, c, k, r), root);
    case GoR(up, l, n, c, k) => Refocus(m, up, Br(l, n, c, k, t), root);
  }

  ghost function All(t: Tree, p: Path): set<Addr> {
    Nodes(t) + PNodes(p)
  }

  /** Closing the innermost frame of the zipper. */
  ghost function Zip(p: Path, t: Tree): Tree
    requires !p.Top?
  {
    if p.GoL? then Br(t, p.n, p.c, p.k, p.r) else Br(p.l, p.n, p.c, p.k, t)
  }

  lemma StepUp(m: Mem, t: Tree, p: Path, root: Addr)
    requires !p.Top?
    ensures At(m, t, p, root) <==> At(m, Zip(p, t), p.up, root)
    ensures All(Zip(p, t), p.up) == All(t, p)
    ensures Plug(p.up, Zip(p, t)) == Plug(p, t)
  {
  }

  /** From `m` to `m'` nothing was written outside `s`. */
  ghost predicate Except(m: Mem, m': Mem, s: set<Addr>) {
    forall a :: a in m && a !in s ==> a in m' && m'[a] == m[a]
  }

  lemma {:induction false} LinkedFrame(m: Mem, m': Mem, s: set<Addr>, t: Tree, par: Addr)
    requires Linked(m, t, par) && Except(m, m', s) && s !! Nodes(t)
    ensures Linked(m', t, par)
  {
    if t.Br? {
      LinkedFrame(m, m', s, t.l, t.n);
      LinkedFrame(m, m', s, t.r, t.n);
    }
  }

  lemma {:induction false} PLinkedFrame(m: Mem, m': Mem, s: set<Addr>, p: Path, x: Addr, root: Addr, tp: Addr)
    requires PLinked(m, p, x, root, tp) && Except(m, m', s) && s !! PNodes(p)
    ensures PLinked(m', p, x, root, tp)
  {
    match p
    case Top =>
    case GoL(up, n, _, _, r) => LinkedFrame(m, m', s, r, n); PLinkedFrame(m, m', s, up, n, root, tp);
    case GoR(up, l, n, _, _) => LinkedFrame(m, m', s, l, n); PLinkedFrame(m, m', s, up, n, root, tp);
  }

  /** The subtree beside the hole. */
  ghost function Side(p: Path): Tree
    requires !p.Top?
  {
    if p.GoL? then p.r else p.l
  }

  /** What the node above the hole must contain when the hole holds `x`. */
  ghost function HoleNode(p: Path, x: Addr, tp: Addr): Node
    requires !p.Top?
  {
    match p
    case GoL(up, _, c, k, r) => Node(c, k, x, RootOf(r), Par(up, tp))
    case GoR(up, l, _, c, k) => Node(c, k, RootOf(l), x, Par(up, tp))
  }

  /** Hanging `t` under another parent touches only its root. */
  lemma Reparent(m: Mem, m': Mem, s: set<Addr>, t: Tree, par: Addr, par': Addr)
    requires Linked(m, t, par) && Sep(t)
    requires Except(m, m', s) && (t.Br? ==> s !! Nodes(t.l) && s !! Nodes(t.r))
    requires t.Br? ==> Holds(m', t.n, m[t.n].(parent := par'))
    ensures Linked(m', t, par')
  {
    if t.Br? {
      LinkedFrame(m, m', s, t.l, t.n);
      LinkedFrame(m, m', s, t.r, t.n);
    }
  }

  /** Putting `y` in the hole touches only the node above it, or the root pointer. */
  lemma Repoint(m: Mem, m': Mem, s: set<Addr>, p: Path, x: Addr, y: Addr, root: Addr, root': Addr, tp: Addr)
    requires PLinked(m, p, x, root, tp) && PSep(p)
    requires Except(m, m', s) && (!p.Top? ==> s !! Nodes(Side(p)) && s !! PNodes(p.up))
    requires if p.Top? then root' == y else root' == root && Holds(m', p.n, HoleNode(p, y, tp))
    ensures PLinked(m', p, y, root', tp)
  {
    match p
    case Top =>
    case GoL(up, n, _, _, r) => LinkedFrame(m, m', s, r, n); PLinkedFrame(m, m', s, up, n, root, tp);
    case GoR(up, l, n, _, _) => LinkedFrame(m, m', s, l, n); PLinkedFrame(m, m', s, up, n, root, tp);
  }

  // ----- how deep a search goes -----

  /** The nodes on the way down to a key: where it is, or where it would be. */
  ghost function SearchPath(t: Tree, key: int): seq<Addr> {
    if t.Leaf? then []
    else if key == t.k then [t.n]
    else if key < t.k then [t.n] + SearchPath(t.l, key)
    else [t.n] + SearchPath(t.r, key)
  }

  lemma PathStep(path: seq<Addr>, t: Tree, key: int)
    requires t.Br? && key != t.k
    ensures key < t.k ==> path + SearchPath(t, key) == path + [t.n] + SearchPath(t.l, key)
    ensures key > t.k ==> path + SearchPath(t, key) == path + [t.n] + SearchPath(t.r, key)
  {
  }

  function Pow2(n: nat): nat {
    if n == 0 then 1 else 2 * Pow2(n - 1)
  }

  ghost function Height(t: Tree): nat {
    if t.Leaf? then 0
    else 1 + if Height(t.l) < Height(t.r) then Height(t.r) else Height(t.l)
  }

  lemma {:induction false} PlugHeight(p: Path, t: Tree)
    ensures PathLen(p) + Height(t) <= Height(Plug(p, t))
    decreases p
  {
    if !p.Top? { PlugHeight(p.up, Zip(p, t)); }
  }

  lemma {:induction false} HeightBound(t: Tree, h: int)
    requires Bal(t, h) && NoRR(t)
    ensures 0 <= h && Height(t) <= 2 * h + (if ColorOf(t) == Red then 1 else 0)
  {
    if t.Br? {
      HeightBound(t.l, h - Weight(t.c));
      HeightBound(t.r, h - Weight(t.c));
    }
  }

  lemma {:induction false} SizeBound(t: Tree, h: nat)
    requires Bal(t, h)
    ensures Pow2(h) <= |Inorder(t)| + 1
  {
    if t.Br? {
      BalUnique(t.l, h - Weight(t.c));
      SizeBound(t.l, h - Weight(t.c));
      SizeBound(t.r, h - Weight(t.c));
    }
  }

  lemma {:induction false} Pow2Add(a: nat, b: nat)
    ensures Pow2(a + b) == Pow2(a) * Pow2(b)
  {
    if a > 0 { Pow2Add(a - 1, b); }
  }

  lemma {:induction false} Pow2Mono(a: nat, b: nat)
    requires a <= b
    ensures Pow2(a) <= Pow2(b)
  {
    if a < b { Pow2Mono(a, b - 1); }
  }

  lemma SquareMono(a: nat, b: nat)
    requires a <= b
    ensures a * a <= b * b
  {
    assert a * a <= a * b <= b * b;
  }

  /** The height of a red-black tree of `n` nodes is at most `2 * log2(n + 1)`. */
  lemma HeightLog(t: Tree, d: nat)
    requires RedBlack(t) && d <= Height(t)
    ensures Pow2(d) <= (|Inorder(t)| + 1) * (|Inorder(t)| + 1)
  {
    var h, n := Bh(t), |Inorder(t)| + 1;
    HeightBound(t, h);
    SizeBound(t, h);
    Pow2Mono(d, h + h);
    Pow2Add(h, h);
    SquareMono(Pow2(h), n);
  }

  // ----- finding a node -----

  /** Every node of `u` is the focus of some zipper for `Plug(p, u)`. */
  lemma {:induction false} Locate(p: Path, u: Tree, z: Addr) returns (q: Path, t: Tree)
    requires z in Nodes(u)
    ensures t.Br? && t.n == z && Plug(q, t) == Plug(p, u)
    decreases u
  {
    if u.n == z {
      q, t := p, u;
    } else if z in Nodes(u.l) {
      q, t := Locate(GoL(p, u.n, u.c, u.k, u.r), u.l, z);
    } else {
      q, t := Locate(GoR(p, u.l, u.n, u.c, u.k), u.r, z);
    }
  }

  // ----- paths inside a subtree -----

  ghost function Compose(q: Path, b: Path): Path {
    match q
    case Top => b
    case GoL(up, n, c, k, r) => GoL(Compose(up, b), n, c, k, r)
    case GoR(up, l, n, c, k) => GoR(Compose(up, b), l, n, c, k)
  }

  ghost predicate AllLeft(q: Path) {
    q.Top? || (q.GoL? && AllLeft(q.up))
  }

  lemma {:induction false} ComposePlug(q: Path, b: Path, t: Tree)
    ensures Plug(Compose(q, b), t) == Plug(b, Plug(q, t))
    decreases q
  {
    if !q.Top? { ComposePlug(q.up, b, Zip(q, t)); }
  }

  lemma {:induction false} ComposeNodes(q: Path, b: Path)
    ensures PNodes(Compose(q, b)) == PNodes(q) + PNodes(b)
  {
    if !q.Top? { ComposeNodes(q.up, b); }
  }

  lemma {:induction false} AllLeftPre(q: Path)
    requires AllLeft(q)
    ensures Pre(q) == []
  {
    if !q.Top? { AllLeftPre(q.up); }
  }

  /** Which node sits at the foot of the upper path does not matter for balance and colours. */
  lemma {:induction false} ComposeSwap(q: Path, b: Path, b': Path, h: int, d: Color)
    requires b.GoR? && b'.GoR? && b' == b.(n := b'.n, k := b'.k)
    ensures PBal(Compose(q, b), h) ==> PBal(Compose(q, b'), h)
    ensures PNoRR(Compose(q, b), d) ==> PNoRR(Compose(q, b'), d)
  {
    if !q.Top? { ComposeSwap(q.up, b, b', h + Weight(q.c), q.c); }
  }

  lemma {:induction false} TopOfPath(m: Mem, p: Path, x: Addr, root: Addr, tp: Addr)
    requires PLinked(m, p, x, root, tp) && !p.Top?
    ensures root in PNodes(p)
  {
    if !p.up.Top? { TopOfPath(m, p.up, p.n, root, tp); }
  }

  /** A linked node's key is a key of the map, and leads back to the node. */
  lemma NodeKey(m: Mem, t: Tree, root: Addr, x: Addr)
    requires At(m, t, Top, root) && Sorted(Inorder(t)) && x in Nodes(t)
    ensures x in m && m[x].key in ToMap(Inorder(t)) && ToMap(Inorder(t))[m[x].key] == x
  {
    var p, u := Locate(Top, t, x);
    Refocus(m, p, u, root);
    FitsFound(p, u);
  }

  lemma {:induction false} RefocusIn(m: Mem, q: Path, b: Path, t: Tree, root: Addr)
    ensures At(m, t, Compose(q, b), root) <==> At(m, Plug(q, t), b, root)
    decreases q
  {
    if !q.Top? {
      StepUp(m, t, Compose(q, b), root);
      RefocusIn(m, q.up, b, Zip(q, t), root);
    }
  }

  lemma {:induction false} SepPlug(q: Path, t: Tree)
    ensures Sep(Plug(q, t)) <==> Sep(t) && PSep(q) && Nodes(t) !! PNodes(q)
    decreases q
  {
    if !q.Top? { SepPlug(q.up, Zip(q, t)); }
  }

  lemma {:induction false} PlugRoot(q: Path, t: Tree)
    requires !q.Top?
    ensures Plug(q, t).Br? && Plug(q, t).n in PNodes(q)
    decreases q
  {
    if !q.up.Top? { PlugRoot(q.up, Zip(q, t)); }
  }

  lemma {:induction false} ToMapOrigin(s: seq<Entry>, k: int) returns (i: nat)
    requires k in ToMap(s)
    ensures i < |s| && s[i] == (ToMap(s)[k], k)
  {
    var n := |s| - 1;
    if s[n].1 == k { i := n; } else { i := ToMapOrigin(s[..n], k); }
  }

  lemma {:induction false} EntryKey(m: Mem, t: Tree, par: Addr, i: nat)
    requires Linked(m, t, par) && i < |Inorder(t)|
    ensures Inorder(t)[i].0 in Nodes(t) && Inorder(t)[i].0 in m && m[Inorder(t)[i].0].key == Inorder(t)[i].1
  {
    var a := |Inorder(t.l)|;
    if i < a { EntryKey(m, t.l, t.n, i); } else if i > a { EntryKey(m, t.r, t.n, i - a - 1); }
  }

  /** What the map says of `k` is a node of the tree that bears the key `k`. */
  lemma MapKey(m: Mem, t: Tree, root: Addr, k: int)
    requires At(m, t, Top, root) && k in ToMap(Inorder(t))
    ensures ToMap(Inorder(t))[k] in Nodes(t)
    ensures ToMap(Inorder(t))[k] in m && m[ToMap(Inorder(t))[k]].key == k
  {
    var i := ToMapOrigin(Inorder(t), k);
    EntryKey(m, t, NIL, i);
  }
}
