/**
 The mutable red-black tree of `rbtree.c`: nodes with parent pointers and one
 shared sentinel, whose own parent field the rotations leave alone.
 */
module RbTree {
  import opened RbModel

  // ----- rotations on values -----

  ghost function RotL(t: Tree): Tree
    requires t.Br? && t.r.Br?
  {
    Br(Br(t.l, t.n, t.c, t.k, t.r.l), t.r.n, t.r.c, t.r.k, t.r.r)
  }

  ghost function RotR(t: Tree): Tree
    requires t.Br? && t.l.Br?
  {
    Br(t.l.l, t.l.n, t.l.c, t.l.k, Br(t.l.r, t.n, t.c, t.k, t.r))
  }

  /** Rotations move no node in or out. */
  lemma RotLNodes(t: Tree)
    requires t.Br? && t.r.Br?
    ensures Nodes(RotL(t)) == Nodes(t)
  {
    assert Nodes(t) == Nodes(t.l) + {t.n} + (Nodes(t.r.l) + {t.r.n} + Nodes(t.r.r));
  }

  lemma RotRNodes(t: Tree)
    requires t.Br? && t.l.Br?
    ensures Nodes(RotR(t)) == Nodes(t)
  {
    assert Nodes(t) == (Nodes(t.l.l) + {t.l.n} + Nodes(t.l.r)) + {t.n} + Nodes(t.r);
  }

  lemma RotLSep(t: Tree)
    requires t.Br? && t.r.Br? && Sep(t)
    ensures Sep(RotL(t))
  {
    assert Nodes(t.r) == Nodes(t.r.l) + {t.r.n} + Nodes(t.r.r) && Sep(t.r);
    var b := Br(t.l, t.n, t.c, t.k, t.r.l);
    assert Nodes(b) == Nodes(t.l) + {t.n} + Nodes(t.r.l) && Sep(b);
  }

  lemma RotRSep(t: Tree)
    requires t.Br? && t.l.Br? && Sep(t)
    ensures Sep(RotR(t))
  {
    assert Nodes(t.l) == Nodes(t.l.l) + {t.l.n} + Nodes(t.l.r) && Sep(t.l);
    var b := Br(t.l.r, t.n, t.c, t.k, t.r);
    assert Nodes(b) == Nodes(t.l.r) + {t.n} + Nodes(t.r) && Sep(b);
  }

  lemma RotLSame(t: Tree, p: Path)
    requires t.Br? && t.r.Br?
    ensures Inorder(Plug(p, RotL(t))) == Inorder(Plug(p, t)) && All(RotL(t), p) == All(t, p)
  {
    RotLNodes(t);
    var a, x, b, y, d := Inorder(t.l), [(t.n, t.k)], Inorder(t.r.l), [(t.r.n, t.r.k)], Inorder(t.r.r);
    assert (a + x + b) + y + d == a + x + (b + y + d);
    SameInorder(p, t, RotL(t));
  }

  lemma RotRSame(t: Tree, p: Path)
    requires t.Br? && t.l.Br?
    ensures Inorder(Plug(p, RotR(t))) == Inorder(Plug(p, t)) && All(RotR(t), p) == All(t, p)
  {
    RotRNodes(t);
    var a, x, b, y, d := Inorder(t.l.l), [(t.l.n, t.l.k)], Inorder(t.l.r), [(t.n, t.k)], Inorder(t.r);
    assert (a + x + b) + y + d == a + x + (b + y + d);
    SameInorder(p, t, RotR(t));
  }

  /** The untouched parts of a left rotation. */
  lemma RotLTouched(t: Tree, p: Path, s: set<Addr>)
    requires t.Br? && t.r.Br? && Apart(t, p)
    requires s == {t.n, t.r.n, RootOf(t.r.l), Par(p, NIL)}
    ensures s !! Nodes(t.l) && s !! Nodes(t.r.r)
    ensures t.r.l.Br? ==> s !! Nodes(t.r.l.l) && s !! Nodes(t.r.l.r)
    ensures !p.Top? ==> s !! Nodes(Side(p)) && s !! PNodes(p.up)
    ensures Sep(t.r) && Sep(t.r.l)
  {
    assert Nodes(t) == Nodes(t.l) + {t.n} + (Nodes(t.r.l) + {t.r.n} + Nodes(t.r.r)) && Sep(t.r);
    assert t.r.l.Br? ==> Nodes(t.r.l) == Nodes(t.r.l.l) + {t.r.l.n} + Nodes(t.r.l.r) && Sep(t.r.l);
  }

  /** The three or four nodes a left rotation writes, and nothing else, is enough. */
  lemma RotLAt(m: Mem, m': Mem, t: Tree, p: Path, root: Addr, root': Addr)
    requires t.Br? && t.r.Br? && At(m, t, p, root)
    requires Holds(m', t.n, Node(t.c, t.k, RootOf(t.l), RootOf(t.r.l), t.r.n))
    requires Holds(m', t.r.n, Node(t.r.c, t.r.k, t.n, RootOf(t.r.r), Par(p, NIL)))
    requires t.r.l.Br? ==> t.r.l.n in m && Holds(m', t.r.l.n, m[t.r.l.n].(parent := t.n))
    requires if p.Top? then root' == t.r.n else root' == root && Holds(m', p.n, HoleNode(p, t.r.n, NIL))
    requires Except(m, m', {t.n, t.r.n, RootOf(t.r.l), Par(p, NIL)})
    ensures At(m', RotL(t), p, root')
  {
    RotLNodes(t); RotLSep(t);
    assert Linked(m, t.r, t.n);
    var s := {t.n, t.r.n, RootOf(t.r.l), Par(p, NIL)};
    RotLTouched(t, p, s);
    LinkedFrame(m, m', s, t.l, t.n);
    LinkedFrame(m, m', s, t.r.r, t.r.n);
    Reparent(m, m', s, t.r.l, t.r.n, t.n);
    Repoint(m, m', s, p, t.n, t.r.n, root, root', NIL);
  }

  /** The untouched parts of a right rotation. */
  lemma RotRTouched(t: Tree, p: Path, s: set<Addr>)
    requires t.Br? && t.l.Br? && Apart(t, p)
    requires s == {t.n, t.l.n, RootOf(t.l.r), Par(p, NIL)}
    ensures s !! Nodes(t.r) && s !! Nodes(t.l.l)
    ensures t.l.r.Br? ==> s !! Nodes(t.l.r.l) && s !! Nodes(t.l.r.r)
    ensures !p.Top? ==> s !! Nodes(Side(p)) && s !! PNodes(p.up)
    ensures Sep(t.l) && Sep(t.l.r)
  {
    assert Nodes(t) == Nodes(t.r) + {t.n} + (Nodes(t.l.r) + {t.l.n} + Nodes(t.l.l)) && Sep(t.l);
    assert t.l.r.Br? ==> Nodes(t.l.r) == Nodes(t.l.r.l) + {t.l.r.n} + Nodes(t.l.r.r) && Sep(t.l.r);
  }

  /** The three or four nodes a right rotation writes, and nothing else, is enough. */
  lemma RotRAt(m: Mem, m': Mem, t: Tree, p: Path, root: Addr, root': Addr)
    requires t.Br? && t.l.Br? && At(m, t, p, root)
    requires Holds(m', t.n, Node(t.c, t.k, RootOf(t.l.r), RootOf(t.r), t.l.n))
    requires Holds(m', t.l.n, Node(t.l.c, t.l.k, RootOf(t.l.l), t.n, Par(p, NIL)))
    requires t.l.r.Br? ==> t.l.r.n in m && Holds(m', t.l.r.n, m[t.l.r.n].(parent := t.n))
    requires if p.Top? then root' == t.l.n else root' == root && Holds(m', p.n, HoleNode(p, t.l.n, NIL))
    requires Except(m, m', {t.n, t.l.n, RootOf(t.l.r), Par(p, NIL)})
    ensures At(m', RotR(t), p, root')
  {
    RotRNodes(t); RotRSep(t);
    assert Linked(m, t.l, t.n);
    var s := {t.n, t.l.n, RootOf(t.l.r), Par(p, NIL)};
    RotRTouched(t, p, s);
    LinkedFrame(m, m', s, t.r, t.n);
    LinkedFrame(m, m', s, t.l.l, t.l.n);
    Reparent(m, m', s, t.l.r, t.l.n, t.n);
    Repoint(m, m', s, p, t.n, t.l.n, root, root', NIL);
  }

  /** Recolouring a node changes nothing but its colour. */
  lemma PaintAt(m: Mem, t: Tree, c: Color, p: Path, root: Addr)
    requires t.Br? && At(m, t, p, root)
    ensures t.n in m && t.n != NIL
    ensures var t' := Dye(t, c);
      && At(m[t.n := m[t.n].(color := c)], t', p, root)
      && All(t', p) == All(t, p) && Inorder(Plug(p, t')) == Inorder(Plug(p, t))
  {
    var m' := m[t.n := m[t.n].(color := c)];
    LinkedFrame(m, m', {t.n}, t.l, t.n);
    LinkedFrame(m, m', {t.n}, t.r, t.n);
    PLinkedFrame(m, m', {t.n}, p, t.n, root, NIL);
    SameInorder(p, t, Dye(t, c));
  }

  // ----- insertion fix-up on values -----

  /** The loop invariant of `rb_insert_fixup`: the only flaw is that the red
      node `t.n` may sit below a red parent or be the root. */
  ghost predicate RedFlaw(t: Tree, p: Path, h: int) {
    t.Br? && t.c == Red && NoRR(t) && Bal(t, h) && PBal(p, h) && PNoRR(p, Black)
  }

  /** The zipper turned from one child of `q.n` (now `t`) to the other. */
  ghost function Turn(q: Path, t: Tree): Path
    requires !q.Top?
  {
    if q.GoL? then GoR(q.up, t, q.n, q.c, q.k) else GoL(q.up, q.n, q.c, q.k, t)
  }

  lemma TurnAt(m: Mem, t: Tree, q: Path, root: Addr)
    requires !q.Top? && At(m, t, q, root)
    ensures At(m, Side(q), Turn(q, t), root)
    ensures All(Side(q), Turn(q, t)) == All(t, q)
    ensures Plug(Turn(q, t), Side(q)) == Plug(q, t)
  {
    StepUp(m, t, q, root);
    StepUp(m, Side(q), Turn(q, t), root);
  }

  /** Red parent and red uncle turn black, the grandparent red and suspect. */
  ghost function Pushed(t: Tree, p: Path): Tree
    requires !p.Top? && !p.up.Top? && Side(p.up).Br?
  {
    var q, s, u := p.up, Dye(Zip(p, t), Black), Dye(Side(p.up), Black);
    if q.GoL? then Br(s, q.n, Red, q.k, u) else Br(u, q.n, Red, q.k, s)
  }

  lemma PushedFlaw(t: Tree, p: Path, h: int)
    requires RedFlaw(t, p, h) && !p.Top? && p.c == Red && !p.up.Top?
    requires ColorOf(Side(p.up)) == Red
    ensures RedFlaw(Pushed(t, p), p.up.up, h + 1)
  {
    assert PNoRR(p.up, Red) && PBal(p.up, h);
    var u := Side(p.up);
    assert Bal(u, h) && NoRR(u);
    assert Bal(Dye(u, Black), h + 1) && NoRR(Dye(u, Black));
    assert Bal(Dye(Zip(p, t), Black), h + 1);
  }

  /** Parent and grandparent of an outer red node swap colours and places. */
  ghost function Outer(p: Path): Path
    requires (p.GoL? && p.up.GoL?) || (p.GoR? && p.up.GoR?)
  {
    var q := p.up;
    if p.GoL? then GoL(q.up, p.n, Black, p.k, Br(p.r, q.n, Red, q.k, q.r))
    else GoR(q.up, Br(q.l, q.n, Red, q.k, p.l), p.n, Black, p.k)
  }

  lemma OuterFlaw(t: Tree, p: Path, h: int)
    requires (p.GoL? && p.up.GoL?) || (p.GoR? && p.up.GoR?)
    requires RedFlaw(t, p, h) && p.c == Red
    requires ColorOf(Side(p.up)) == Black
    ensures RedFlaw(t, Outer(p), h) && PathLen(Outer(p)) < PathLen(p)
  {
    assert PNoRR(p.up, Red) && PBal(p.up, h) && Bal(Side(p.up), h);
    assert PNoRR(p.up.up, Black) && PBal(p.up.up, h + 1);
    assert Bal(Side(p), h) && Bal(Side(Outer(p)), h);
  }

  /** Case 2 keeps the flaw where it was. */
  lemma InnerFlaw(t: Tree, p: Path, h: int)
    requires RedFlaw(t, p, h) && !p.Top? && p.c == Red
    ensures p.GoR? ==> RedFlaw(RotL(Zip(p, t)).l, GoL(p.up, t.n, Red, t.k, t.r), h)
    ensures p.GoL? ==> RedFlaw(RotR(Zip(p, t)).r, GoR(p.up, t.l, t.n, Red, t.k), h)
  {
    assert PNoRR(p.up, Red) && PBal(p.up, h);
    assert Bal(t.l, h) && Bal(t.r, h) && Bal(Side(p), h);
  }

  /** Once the parent is black (or the sentinel), blackening the root ends it. */
  lemma FlawGone(t: Tree, p: Path, h: int)
    requires RedFlaw(t, p, h) && (p.Top? || p.c == Black)
    ensures Plug(p, t).Br? && RedBlack(Dye(Plug(p, t), Black))
  {
    if p.Top? {
      assert Bal(Dye(t, Black), h + 1);
      BalUnique(Dye(t, Black), h + 1);
    } else {
      assert PNoRR(p, Red);
      PlugNoRR(p, t);
      PlugBal(p, t, h);
      PlugNodes(p, t);
      assert t.n in Nodes(Plug(p, t));
      assert Dye(Plug(p, t), Black) == Plug(p, t);
    }
  }

  /** What the code can read around the focus. */
  lemma Kin(m: Mem, t: Tree, p: Path, root: Addr)
    requires At(m, t, p, root) && !p.Top?
    ensures p.n != NIL && Holds(m, p.n, HoleNode(p, RootOf(t), NIL))
    ensures t.Br? ==> t.n in m && m[t.n].parent == p.n && m[t.n].color == t.c && RootOf(t) != RootOf(Side(p))
    ensures Side(p).Br? ==> Holds(m, Side(p).n, Node(Side(p).c, Side(p).k, RootOf(Side(p).l), RootOf(Side(p).r), p.n))
    ensures p.up.Top? ==> root == p.n
    ensures At(m, Zip(p, t), p.up, root) && All(Zip(p, t), p.up) == All(t, p)
  {
    StepUp(m, t, p, root);
    assert Side(p).Br? ==> Side(p).n in Nodes(Side(p));
  }

  lemma Colors(m: Mem, t: Tree, p: Path, root: Addr)
    requires At(m, t, p, root) && t.Br? && NIL in m && m[NIL].color == Black
    ensures Holds(m, t.n, Node(t.c, t.k, RootOf(t.l), RootOf(t.r), Par(p, NIL)))
    ensures RootOf(t.l) in m && m[RootOf(t.l)].color == ColorOf(t.l)
    ensures RootOf(t.r) in m && m[RootOf(t.r)].color == ColorOf(t.r)
  {
    assert Linked(m, t.l, t.n) && Linked(m, t.r, t.n);
  }

  /** The focus moved back to the root. */
  lemma WholeAgain(m: Mem, t: Tree, p: Path, root: Addr)
    requires At(m, t, p, root) && t.Br?
    ensures At(m, Plug(p, t), Top, root) && All(Plug(p, t), Top) == All(t, p)
    ensures Plug(p, t).Br? && RootOf(Plug(p, t)) == root
  {
    Refocus(m, p, t, root);
    PlugNodes(p, t);
    assert t.n in Nodes(t);
  }

  // ----- deletion fix-up on values -----

  /** The loop invariant of `rb_delete_fixup`: every way through `t` is one
      black node short, and the root of `t` may clash with its neighbours. */
  ghost predicate BlackFlaw(t: Tree, p: Path, h: int) {
    BelowNoRR(t) && Bal(t, h) && PBal(p, h + 1) && PNoRR(p, Black)
  }

  ghost function WithSide(p: Path, s: Tree): Path
    requires !p.Top?
  {
    if p.GoL? then p.(r := s) else p.(l := s)
  }

  ghost function DyeUp(p: Path, c: Color): Path
    requires !p.Top?
  {
    p.(c := c)
  }

  /** Case 1: the red sibling becomes the grandparent. */
  ghost function RedSibling(p: Path): Path
    requires !p.Top? && Side(p).Br?
  {
    var s := Side(p);
    if p.GoL? then GoL(GoL(p.up, s.n, Black, s.k, s.r), p.n, Red, p.k, s.l)
    else GoR(GoR(p.up, s.l, s.n, Black, s.k), s.r, p.n, Red, p.k)
  }

  /** Case 3: the near nephew becomes the sibling. */
  ghost function NearNephew(p: Path): Path
    requires !p.Top? && Side(p).Br? && (if p.GoL? then Side(p).l.Br? else Side(p).r.Br?)
  {
    var s := Side(p);
    WithSide(p, if p.GoL?
                then Br(s.l.l, s.l.n, Black, s.l.k, Br(s.l.r, s.n, Red, s.k, s.r))
                else Br(Br(s.l, s.n, Red, s.k, s.r.l), s.r.n, Black, s.r.k, s.r.r))
  }

  /** Case 4: the sibling takes the parent's place, the far nephew turns black. */
  ghost function FarNephew(t: Tree, p: Path): Tree
    requires !p.Top? && Side(p).Br?
  {
    var s := Side(p);
    if p.GoL? then Br(Br(t, p.n, Black, p.k, s.l), s.n, p.c, s.k, Dye(s.r, Black))
    else Br(Dye(s.l, Black), s.n, p.c, s.k, Br(s.r, p.n, Black, p.k, t))
  }

  lemma SiblingExists(t: Tree, p: Path, h: int)
    requires BlackFlaw(t, p, h) && !p.Top?
    ensures 0 <= h && Bal(Side(p), h + 1) && Side(p).Br?
  {
    BalUnique(t, h);
  }

  lemma RedSiblingFlaw(t: Tree, p: Path, h: int)
    requires BlackFlaw(t, p, h) && !p.Top? && Side(p).Br? && Side(p).c == Red && ColorOf(t) == Black
    ensures p.c == Black && BlackFlaw(t, RedSibling(p), h)
    ensures Side(RedSibling(p)).Br? && Side(RedSibling(p)).c == Black
  {
    var s, p' := Side(p), RedSibling(p);
    assert Bal(s, h + 1) && NoRR(s) && PNoRR(p.up, Black) && PBal(p.up, h + 2);
    assert PBal(p'.up, h + 1) && PNoRR(p'.up, Red);
    SiblingExists(t, p', h);
  }

  /** Case 2 passes the missing black to the parent. */
  lemma PassUpFlaw(t: Tree, p: Path, h: int)
    requires BlackFlaw(t, p, h) && !p.Top? && ColorOf(t) == Black
    requires Side(p).Br? && Side(p).c == Black
    requires ColorOf(Side(p).l) == Black && ColorOf(Side(p).r) == Black
    ensures BlackFlaw(Zip(WithSide(p, Dye(Side(p), Red)), t), p.up, h + Weight(p.c))
  {
    var s := Dye(Side(p), Red);
    assert Bal(Side(p), h + 1) && Bal(s, h) && NoRR(s) && NoRR(t);
    assert PNoRR(p.up, p.c);
    PNoRRBlack(p.up, p.c);
  }

  lemma NearNephewFlaw(t: Tree, p: Path, h: int)
    requires BlackFlaw(t, p, h) && !p.Top? && ColorOf(t) == Black
    requires Side(p).Br? && Side(p).c == Black
    requires if p.GoL? then ColorOf(Side(p).l) == Red && ColorOf(Side(p).r) == Black
             else ColorOf(Side(p).r) == Red && ColorOf(Side(p).l) == Black
    ensures BlackFlaw(t, NearNephew(p), h)
  {
    var s := Side(p);
    assert Bal(s, h + 1) && NoRR(s) && Bal(s.l, h) && Bal(s.r, h);
    var f := Side(NearNephew(p));
    if p.GoL? {
      assert NoRR(s.l) && Bal(f.l, h) && Bal(f.r, h) && NoRR(f.r);
    } else {
      assert NoRR(s.r) && Bal(f.l, h) && Bal(f.r, h) && NoRR(f.l);
    }
  }

  lemma FarNephewFixed(t: Tree, p: Path, h: int)
    requires BlackFlaw(t, p, h) && !p.Top? && ColorOf(t) == Black
    requires Side(p).Br? && Side(p).c == Black
    requires if p.GoL? then ColorOf(Side(p).r) == Red else ColorOf(Side(p).l) == Red
    ensures RedBlack(Plug(p.up, FarNephew(t, p)))
  {
    var s, f := Side(p), FarNephew(t, p);
    assert Bal(s, h + 1) && NoRR(s) && Bal(s.l, h) && Bal(s.r, h);
    var far := if p.GoL? then s.r else s.l;
    assert NoRR(far) && Bal(Dye(far, Black), h + 1) && NoRR(Dye(far, Black));
    if p.GoL? {
      assert Bal(f.l, h + 1) && NoRR(f.l) && f == Br(f.l, s.n, p.c, s.k, Dye(far, Black));
    } else {
      assert Bal(f.r, h + 1) && NoRR(f.r) && f == Br(Dye(far, Black), s.n, p.c, s.k, f.r);
    }
    assert Bal(f, h + 1 + Weight(p.c)) && NoRR(f) && ColorOf(f) == p.c;
    PlugBal(p.up, f, h + 1 + Weight(p.c));
    PlugNoRR(p.up, f);
  }

  /** At the root, or at a red node, blackening the focus restores the missing black. */
  lemma BlackFlawGone(t: Tree, p: Path, h: int)
    requires BlackFlaw(t, p, h) && (p.Top? || ColorOf(t) == Red)
    ensures RedBlack(Plug(p, Dye(t, Black)))
  {
    var t' := Dye(t, Black);
    assert NoRR(t') && ColorOf(t') == Black;
    if ColorOf(t) == Red {
      assert Bal(t', h + 1);
      PlugBal(p, t', h + 1);
    } else {
      BalUnique(t', h);
    }
    PlugNoRR(p, t');
  }

  // ----- taking a node out, on values -----

  /** A node of colour `c` over `f` is gone from the hole of `q`. */
  ghost predicate Gap(f: Tree, q: Path, h: int, c: Color) {
    NoRR(f) && Bal(f, h) && PBal(q, h + Weight(c)) && PNoRR(q, c)
  }

  lemma GapRed(f: Tree, q: Path, h: int)
    requires Gap(f, q, h, Red)
    ensures RedBlack(Plug(q, f))
  {
    PNoRRBlack(q, Red);
    PlugBal(q, f, h);
    PlugNoRR(q, f);
  }

  /** Taking out a node with at most one child. */
  lemma GapHere(t: Tree, p: Path)
    requires t.Br? && RedBlack(Plug(p, t))
    ensures t.l.Leaf? ==> Gap(t.r, p, Bh(t) - Weight(t.c), t.c)
    ensures t.r.Leaf? ==> Gap(t.l, p, Bh(t) - Weight(t.c), t.c)
  {
    UnplugRedBlack(p, t, Bh(Plug(p, t)));
  }

  /** Taking out the successor `u.n` of `t.n` and putting it in the place of `t.n`. */
  lemma GapBelow(t: Tree, p: Path, q: Path, u: Tree)
    requires t.Br? && RedBlack(Plug(p, t)) && u.Br? && u.l.Leaf? && Plug(q, u) == t.r
    ensures Gap(u.r, Compose(q, GoR(p, t.l, u.n, t.c, u.k)), Bh(u) - Weight(u.c), u.c)
  {
    var b := GoR(p, t.l, t.n, t.c, t.k);
    ComposePlug(q, b, u);
    UnplugRedBlack(Compose(q, b), u, Bh(Plug(p, t)));
    ComposeSwap(q, b, GoR(p, t.l, u.n, t.c, u.k), Bh(u), u.c);
  }

  ghost predicate Dropped(t: Tree, t': Tree, k: int) {
    Sorted(Inorder(t')) && ToMap(Inorder(t')) == ToMap(Inorder(t)) - {k}
  }

  lemma Bracket<E>(a: seq<E>, b: seq<E>, c: seq<E>, d: seq<E>, e: seq<E>)
    ensures a + (b + c + d) + e == (a + b) + c + (d + e)
    ensures a + (b + d) + e == (a + b) + (d + e)
  {
  }

  lemma Lead<E>(a: seq<E>, b: seq<E>, c: seq<E>, d: seq<E>)
    ensures a + b + ([] + c + d) == a + ([] + ([] + b + c) + d)
  {
  }

  /** Without its leftmost node `u.n`, the subtree keeps all other nodes. */
  lemma ExtractNodes(q: Path, u: Tree)
    requires u.Br? && u.l.Leaf? && Sep(Plug(q, u))
    ensures Nodes(Plug(q, u.r)) == Nodes(Plug(q, u)) - {u.n}
    ensures Sep(Plug(q, u.r)) && u.n in Nodes(Plug(q, u))
  {
    SepPlug(q, u);
    SepPlug(q, u.r);
    PlugNodes(q, u);
    PlugNodes(q, u.r);
  }

  lemma DropTwoEntries(t: Tree, p: Path, q: Path, u: Tree)
    requires t.Br? && Sorted(Inorder(Plug(p, t)))
    requires u.Br? && u.l.Leaf? && Plug(q, u) == t.r && AllLeft(q)
    ensures Dropped(Plug(p, t), Plug(Compose(q, GoR(p, t.l, u.n, t.c, u.k)), u.r), t.k)
  {
    var b := GoR(p, t.l, u.n, t.c, u.k);
    DropBelow(t, q, u);
    ComposePlug(q, b, u.r);
    DropHere(t, p, Zip(b, Plug(q, u.r)));
  }

  lemma DropTwoNodes(t: Tree, p: Path, q: Path, u: Tree)
    requires t.Br? && Apart(t, p) && u.Br? && u.l.Leaf? && Plug(q, u) == t.r
    ensures All(u.r, Compose(q, GoR(p, t.l, u.n, t.c, u.k))) == All(t, p) - {t.n}
  {
    var b := GoR(p, t.l, u.n, t.c, u.k);
    ExtractNodes(q, u);
    PlugNodes(q, u.r);
    ComposeNodes(q, b);
    assert Nodes(t) == Nodes(t.l) + {t.n} + Nodes(t.r);
  }

  /** The focus goes down to what is left where the successor was. */
  lemma Resettle(m: Mem, t: Tree, p: Path, q: Path, u: Tree, root: Addr)
    requires t.Br? && t.l.Br? && u.Br?
    requires At(m, Br(t.l, u.n, t.c, u.k, Plug(q, u.r)), p, root)
    ensures var path := Compose(q, GoR(p, t.l, u.n, t.c, u.k));
      && At(m, u.r, path, root) && Par(path, NIL) == Par(q, u.n)
      && (u.r.Br? ==> u.r.n in m && m[u.r.n].parent == Par(path, NIL))
    ensures t.l.n in Nodes(t.l)
  {
    var b := GoR(p, t.l, u.n, t.c, u.k);
    StepUp(m, Plug(q, u.r), b, root);
    RefocusIn(m, q, b, u.r, root);
  }

  /** The entries lose exactly `(t.n, t.k)`. */
  lemma DropHere(t: Tree, p: Path, f: Tree)
    requires t.Br? && Sorted(Inorder(Plug(p, t)))
    requires Inorder(f) == Inorder(t.l) + Inorder(t.r)
    ensures Dropped(Plug(p, t), Plug(p, f), t.k)
  {
    PlugInorder(p, t);
    PlugInorder(p, f);
    var a, e, b := Pre(p) + Inorder(t.l), (t.n, t.k), Inorder(t.r) + Post(p);
    Bracket(Pre(p), Inorder(t.l), [e], Inorder(t.r), Post(p));
    ToMapDrop(a, e, b);
  }

  lemma DropChild(t: Tree, p: Path, f: Tree)
    requires t.Br? && Sorted(Inorder(Plug(p, t)))
    requires (f == t.r && t.l.Leaf?) || (f == t.l && t.r.Leaf?)
    ensures Dropped(Plug(p, t), Plug(p, f), t.k)
  {
    OnlyChild(t, f);
    DropHere(t, p, f);
  }

  lemma OnlyChild(t: Tree, f: Tree)
    requires t.Br? && ((f == t.r && t.l.Leaf?) || (f == t.l && t.r.Leaf?))
    ensures Inorder(f) == Inorder(t.l) + Inorder(t.r)
  {
  }

  lemma DropBelow(t: Tree, q: Path, u: Tree)
    requires t.Br? && u.Br? && u.l.Leaf? && Plug(q, u) == t.r && AllLeft(q)
    ensures Inorder(Br(t.l, u.n, t.c, u.k, Plug(q, u.r))) == Inorder(t.l) + Inorder(t.r)
  {
    AllLeftPre(q);
    PlugInorder(q, u);
    PlugInorder(q, u.r);
    Lead(Inorder(t.l), [(u.n, u.k)], Inorder(u.r), Post(q));
  }

  class RbTree {
    var mem: Mem
    var root: Addr
    ghost var tree: Tree

    ghost predicate Sentinel()
      reads this
    {
      NIL in mem && mem[NIL].color == Black
    }

    ghost predicate Valid()
      reads this
    {
      && At(mem, tree, Top, root)
      && Sentinel()
      && NULL !in Nodes(tree)
      && RedBlack(tree)
      && Sorted(Inorder(tree))
    }

    /** The finite map from keys to nodes that the tree stands for. */
    ghost function Contents(): map<int, Addr>
      reads this
    {
      ToMap(Inorder(tree))
    }

    /** `rb_init` on memory that already holds the sentinel and the caller's nodes. */
    constructor (memory: Mem)
      requires NIL in memory
      ensures Valid() && Contents() == map[] && tree == Leaf
      ensures Except(memory, mem, {NIL})
    {
      mem := memory[NIL := memory[NIL].(color := Black)];
      root := NIL;
      tree := Leaf;
    }

    /** `rb_search`; `path` records the nodes whose keys are compared: just those on the
        way down to the key. */
    method Search(key: int) returns (r: Addr, ghost path: seq<Addr>)
      requires Valid()
      ensures r == if key in Contents() then Contents()[key] else NULL
      ensures path == SearchPath(tree, key)
      ensures Pow2(|path|) <= (|Inorder(tree)| + 1) * (|Inorder(tree)| + 1)
    {
      ghost var t, p;
      r, path, t, p := Descend(key);
      PlugHeight(p, t);
      if r == NIL {
        FitsNone(p, key);
        r := NULL;
      } else {
        FitsFound(p, t);
        path := path + [r];
      }
      HeightLog(tree, |path|);
    }

    /** The loop of `rb_search`. */
    method Descend(key: int) returns (x: Addr, ghost path: seq<Addr>, ghost t: Tree, ghost p: Path)
      requires Valid()
      ensures At(mem, t, p, root) && Plug(p, t) == tree && x == RootOf(t) && Fits(p, key)
      ensures x == NIL || (x in mem && mem[x].key == key)
      ensures |path| == PathLen(p) && SearchPath(tree, key) == path + if t.Leaf? then [] else [x]
    {
      x := root;
      path := [];
      t, p := tree, Top;
      while x != NIL && mem[x].key != key
        invariant At(mem, t, p, root) && Plug(p, t) == tree && x == RootOf(t)
        invariant Fits(p, key) && |path| == PathLen(p) && path + SearchPath(t, key) == SearchPath(tree, key)
        decreases t
      {
        PathStep(path, t, key);
        path := path + [x];
        FitsDown(p, t, key);
        if key < mem[x].key {
          x := mem[x].lchild;
          t, p := t.l, GoL(p, t.n, t.c, t.k, t.r);
        } else {
          x := mem[x].rchild;
          t, p := t.r, GoR(p, t.l, t.n, t.c, t.k);
        }
        StepUp(mem, t, p, root);
      }
    }

    method LeftRotate(x: Addr, ghost t: Tree, ghost p: Path) returns (ret: int)
      requires t.Br? && t.n == x && At(mem, t, p, root)
      modifies this`root, this`mem
      ensures t.r.Leaf? ==> ret == -1 && mem == old(mem) && root == old(root)
      ensures t.r.Br? ==> ret == 1 && At(mem, RotL(t), p, root)
      ensures Except(old(mem), mem, Nodes(t) + PNodes(p))
    {
      if mem[x].rchild == NIL {
        return -1;
      }
      var y := mem[x].rchild;
      assert Linked(mem, t.r, x) && Sep(t.r) && Linked(mem, t.r.l, y);
      assert t.r.l.Br? ==> t.r.l.n in Nodes(t.r.l);
      mem := mem[x := mem[x].(rchild := mem[y].lchild)];
      if mem[y].lchild != NIL {
        var b := mem[y].lchild;
        mem := mem[b := mem[b].(parent := x)];
      }
      mem := mem[y := mem[y].(parent := mem[x].parent)];
      var up := mem[x].parent;
      if up == NIL {
        root := y;
      } else if x == mem[up].lchild {
        mem := mem[up := mem[up].(lchild := y)];
      } else {
        mem := mem[up := mem[up].(rchild := y)];
      }
      mem := mem[y := mem[y].(lchild := x)];
      mem := mem[x := mem[x].(parent := y)];
      RotLAt(old(mem), mem, t, p, old(root), root);
      return 1;
    }

    method RightRotate(x: Addr, ghost t: Tree, ghost p: Path) returns (ret: int)
      requires t.Br? && t.n == x && At(mem, t, p, root)
      modifies this`root, this`mem
      ensures t.l.Leaf? ==> ret == -1 && mem == old(mem) && root == old(root)
      ensures t.l.Br? ==> ret == 1 && At(mem, RotR(t), p, root)
      ensures Except(old(mem), mem, Nodes(t) + PNodes(p))
    {
      if mem[x].lchild == NIL {
        return -1;
      }
      var y := mem[x].lchild;
      assert Linked(mem, t.l, x) && Sep(t.l) && Linked(mem, t.l.r, y);
      assert t.l.r.Br? ==> t.l.r.n in Nodes(t.l.r);
      mem := mem[x := mem[x].(lchild := mem[y].rchild)];
      if mem[y].rchild != NIL {
        var b := mem[y].rchild;
        mem := mem[b := mem[b].(parent := x)];
      }
      mem := mem[y := mem[y].(parent := mem[x].parent)];
      var up := mem[x].parent;
      if up == NIL {
        root := y;
      } else if x == mem[up].rchild {
        mem := mem[up := mem[up].(rchild := y)];
      } else {
        mem := mem[up := mem[up].(lchild := y)];
      }
      mem := mem[y := mem[y].(rchild := x)];
      mem := mem[x := mem[x].(parent := y)];
      RotRAt(old(mem), mem, t, p, old(root), root);
      return 1;
    }

    method Paint(x: Addr, c: Color, ghost t: Tree, ghost p: Path)
      requires t.Br? && t.n == x && At(mem, t, p, root)
      modifies this`mem
      ensures At(mem, Dye(t, c), p, root)
      ensures All(Dye(t, c), p) == All(t, p)
      ensures Inorder(Plug(p, Dye(t, c))) == Inorder(Plug(p, t))
      ensures Except(old(mem), mem, All(t, p))
    {
      PaintAt(mem, t, c, p, root);
      mem := mem[x := mem[x].(color := c)];
    }

    /** Case 1 of `rb_insert_fixup`, the same on both sides. */
    method InsertRecolor(x: Addr, uncle: Addr, ghost t: Tree, ghost p: Path, ghost h: int) returns (bad: Addr)
      requires At(mem, t, p, root) && RedFlaw(t, p, h) && x == t.n
      requires !p.Top? && p.c == Red && !p.up.Top? && Side(p.up).Br? && Side(p.up).c == Red && uncle == Side(p.up).n
      modifies this`mem
      ensures At(mem, Pushed(t, p), p.up.up, root) && RedFlaw(Pushed(t, p), p.up.up, h + 1)
      ensures bad == p.up.n
      ensures Inorder(Plug(p.up.up, Pushed(t, p))) == Inorder(Plug(p, t))
      ensures All(Pushed(t, p), p.up.up) == All(t, p)
      ensures Except(old(mem), mem, All(t, p))
    {
      ghost var q := p.up;
      PushedFlaw(t, p, h);
      StepUp(mem, t, p, root);
      var par := mem[x].parent;
      var grand := mem[par].parent;
      Paint(par, Black, Zip(p, t), q);
      ghost var s := Dye(Zip(p, t), Black);
      TurnAt(mem, s, q, root);
      Paint(uncle, Black, Side(q), Turn(q, s));
      ghost var u := Dye(Side(q), Black);
      StepUp(mem, u, Turn(q, s), root);
      Paint(grand, Red, Zip(Turn(q, s), u), q.up);
      bad := grand;
    }

    /** Case 2 of `rb_insert_fixup` when the parent is a left child. */
    method InsertInnerLeft(x: Addr, ghost t: Tree, ghost p: Path, ghost h: int)
      returns (bad: Addr, ghost t': Tree, ghost p': Path)
      requires At(mem, t, p, root) && RedFlaw(t, p, h) && x == t.n
      requires p.GoR? && p.c == Red
      modifies this`root, this`mem
      ensures At(mem, t', p', root) && RedFlaw(t', p', h) && bad == t'.n
      ensures p'.GoL? && p'.c == Red && p'.up == p.up
      ensures Inorder(Plug(p', t')) == Inorder(Plug(p, t)) && All(t', p') == All(t, p)
      ensures Except(old(mem), mem, All(t, p))
    {
      StepUp(mem, t, p, root);
      InnerFlaw(t, p, h);
      ghost var z := Zip(p, t);
      bad := mem[x].parent;
      var _ := LeftRotate(bad, z, p.up);
      t', p' := RotL(z).l, GoL(p.up, t.n, Red, t.k, t.r);
      StepUp(mem, t', p', root);
      RotLSame(z, p.up);
    }

    /** Case 3 of `rb_insert_fixup` when the parent is a left child. */
    method InsertOuterLeft(x: Addr, ghost t: Tree, ghost p: Path)
      requires At(mem, t, p, root) && t.Br? && x == t.n
      requires p.GoL? && p.up.GoL?
      modifies this`root, this`mem
      ensures At(mem, t, Outer(p), root)
      ensures Inorder(Plug(Outer(p), t)) == Inorder(Plug(p, t)) && All(t, Outer(p)) == All(t, p)
      ensures Except(old(mem), mem, All(t, p))
    {
      ghost var q := p.up;
      StepUp(mem, t, p, root);
      var par := mem[x].parent;
      var grand := mem[par].parent;
      Paint(par, Black, Zip(p, t), q);
      ghost var s := Dye(Zip(p, t), Black);
      StepUp(mem, s, q, root);
      Paint(grand, Red, Zip(q, s), q.up);
      ghost var g := Dye(Zip(q, s), Red);
      var _ := RightRotate(grand, g, q.up);
      RotRSame(g, q.up);
      StepUp(mem, t, Outer(p), root);
    }

    /** Case 2 of `rb_insert_fixup` when the parent is a right child. */
    method InsertInnerRight(x: Addr, ghost t: Tree, ghost p: Path, ghost h: int)
      returns (bad: Addr, ghost t': Tree, ghost p': Path)
      requires At(mem, t, p, root) && RedFlaw(t, p, h) && x == t.n
      requires p.GoL? && p.c == Red
      modifies this`root, this`mem
      ensures At(mem, t', p', root) && RedFlaw(t', p', h) && bad == t'.n
      ensures p'.GoR? && p'.c == Red && p'.up == p.up
      ensures Inorder(Plug(p', t')) == Inorder(Plug(p, t)) && All(t', p') == All(t, p)
      ensures Except(old(mem), mem, All(t, p))
    {
      StepUp(mem, t, p, root);
      InnerFlaw(t, p, h);
      ghost var z := Zip(p, t);
      bad := mem[x].parent;
      var _ := RightRotate(bad, z, p.up);
      t', p' := RotR(z).r, GoR(p.up, t.l, t.n, Red, t.k);
      StepUp(mem, t', p', root);
      RotRSame(z, p.up);
    }

    /** Case 3 of `rb_insert_fixup` when the parent is a right child. */
    method InsertOuterRight(x: Addr, ghost t: Tree, ghost p: Path)
      requires At(mem, t, p, root) && t.Br? && x == t.n
      requires p.GoR? && p.up.GoR?
      modifies this`root, this`mem
      ensures At(mem, t, Outer(p), root)
      ensures Inorder(Plug(Outer(p), t)) == Inorder(Plug(p, t)) && All(t, Outer(p)) == All(t, p)
      ensures Except(old(mem), mem, All(t, p))
    {
      ghost var q := p.up;
      StepUp(mem, t, p, root);
      var par := mem[x].parent;
      var grand := mem[par].parent;
      Paint(par, Black, Zip(p, t), q);
      ghost var s := Dye(Zip(p, t), Black);
      StepUp(mem, s, q, root);
      Paint(grand, Red, Zip(q, s), q.up);
      ghost var g := Dye(Zip(q, s), Red);
      var _ := LeftRotate(grand, g, q.up);
      RotLSame(g, q.up);
      StepUp(mem, t, Outer(p), root);
    }

    /** The body of the loop of `rb_insert_fixup` when the parent is a left child. */
    method InsertRoundLeft(x: Addr, ghost t: Tree, ghost p: Path, ghost h: int)
      returns (bad: Addr, ghost t': Tree, ghost p': Path, ghost h': int)
      requires Sentinel() && At(mem, t, p, root) && RedFlaw(t, p, h) && x == t.n
      requires !p.Top? && p.c == Red && p.up.GoL?
      modifies this`root, this`mem
      ensures At(mem, t', p', root) && RedFlaw(t', p', h') && bad == t'.n
      ensures Inorder(Plug(p', t')) == Inorder(Plug(p, t)) && All(t', p') == All(t, p)
      ensures PathLen(p') < PathLen(p)
      ensures Except(old(mem), mem, All(t, p))
    {
      Kin(mem, t, p, root);
      Kin(mem, Zip(p, t), p.up, root);
      bad, t', p', h' := x, t, p, h;
      var par := mem[bad].parent;
      var uncle := mem[mem[par].parent].rchild;
      if mem[uncle].color == Red {
        bad := InsertRecolor(bad, uncle, t, p, h);
        t', p', h' := Pushed(t, p), p.up.up, h + 1;
        return;
      } else if bad == mem[par].rchild {
        bad, t', p' := InsertInnerLeft(bad, t, p, h);
      }
      OuterFlaw(t', p', h);
      InsertOuterLeft(bad, t', p');
      p' := Outer(p');
    }

    /** The body of the loop of `rb_insert_fixup` when the parent is a right child. */
    method InsertRoundRight(x: Addr, ghost t: Tree, ghost p: Path, ghost h: int)
      returns (bad: Addr, ghost t': Tree, ghost p': Path, ghost h': int)
      requires Sentinel() && At(mem, t, p, root) && RedFlaw(t, p, h) && x == t.n
      requires !p.Top? && p.c == Red && p.up.GoR?
      modifies this`root, this`mem
      ensures At(mem, t', p', root) && RedFlaw(t', p', h') && bad == t'.n
      ensures Inorder(Plug(p', t')) == Inorder(Plug(p, t)) && All(t', p') == All(t, p)
      ensures PathLen(p') < PathLen(p)
      ensures Except(old(mem), mem, All(t, p))
    {
      Kin(mem, t, p, root);
      Kin(mem, Zip(p, t), p.up, root);
      bad, t', p', h' := x, t, p, h;
      var par := mem[bad].parent;
      var uncle := mem[mem[par].parent].lchild;
      if mem[uncle].color == Red {
        bad := InsertRecolor(bad, uncle, t, p, h);
        t', p', h' := Pushed(t, p), p.up.up, h + 1;
        return;
      } else if bad == mem[par].lchild {
        bad, t', p' := InsertInnerRight(bad, t, p, h);
      }
      OuterFlaw(t', p', h);
      InsertOuterRight(bad, t', p');
      p' := Outer(p');
    }

    method InsertFixup(x: Addr, ghost t0: Tree, ghost p0: Path, ghost h0: int) returns (ghost fixed: Tree)
      requires Sentinel() && At(mem, t0, p0, root) && RedFlaw(t0, p0, h0) && x == t0.n
      modifies this`root, this`mem
      ensures At(mem, fixed, Top, root) && RedBlack(fixed)
      ensures Inorder(fixed) == Inorder(Plug(p0, t0)) && Nodes(fixed) == All(t0, p0)
      ensures Except(old(mem), mem, All(t0, p0))
    {
      var bad := x;
      ghost var t, p, h := t0, p0, h0;
      while mem[mem[bad].parent].color == Red
        invariant Sentinel() && At(mem, t, p, root) && RedFlaw(t, p, h) && bad == t.n
        invariant Inorder(Plug(p, t)) == Inorder(Plug(p0, t0)) && All(t, p) == All(t0, p0)
        invariant Except(old(mem), mem, All(t0, p0))
        decreases PathLen(p)
      {
        Kin(mem, t, p, root);
        assert PNoRR(p.up, Red) && !p.up.Top?;
        Kin(mem, Zip(p, t), p.up, root);
        var par := mem[bad].parent;
        if par == mem[mem[par].parent].lchild {
          bad, t, p, h := InsertRoundLeft(bad, t, p, h);
        } else {
          bad, t, p, h := InsertRoundRight(bad, t, p, h);
        }
      }
      FlawGone(t, p, h);
      Refocus(mem, p, t, root);
      PlugNodes(p, t);
      fixed := Dye(Plug(p, t), Black);
      Paint(root, Black, Plug(p, t), Top);
    }

    /** The descent of `rb_insert`: the node under which `key` belongs, unless it is there. */
    method FindSlot(key: int) returns (found: bool, pre: Addr, ghost p: Path)
      requires Valid()
      ensures found <==> key in Contents()
      ensures !found ==> At(mem, Leaf, p, root) && Plug(p, Leaf) == tree && pre == Par(p, NIL) && Fits(p, key)
    {
      pre := NIL;
      var cur := root;
      ghost var t := tree;
      p := Top;
      while cur != NIL
        invariant At(mem, t, p, root) && Plug(p, t) == tree && cur == RootOf(t) && pre == Par(p, NIL)
        invariant Fits(p, key)
        decreases t
      {
        pre := cur;
        FitsDown(p, t, key);
        if key < mem[cur].key {
          cur := mem[cur].lchild;
          t, p := t.l, GoL(p, t.n, t.c, t.k, t.r);
        } else if key > mem[cur].key {
          cur := mem[cur].rchild;
          t, p := t.r, GoR(p, t.l, t.n, t.c, t.k);
        } else {
          FitsFound(p, t);
          return true, pre, p;
        }
        StepUp(mem, t, p, root);
      }
      FitsNone(p, key);
      return false, pre, p;
    }

    /** Hanging the new red leaf `x` below `pre`. */
    method Attach(x: Addr, pre: Addr, ghost p: Path)
      requires At(mem, Leaf, p, root) && pre == Par(p, NIL)
      requires x in mem && x != NIL && x !in PNodes(p) && Fits(p, mem[x].key)
      modifies this`root, this`mem
      ensures At(mem, Br(Leaf, x, Red, old(mem)[x].key, Leaf), p, root)
      ensures Except(old(mem), mem, PNodes(p) + {x})
    {
      if !p.Top? { FitsSide(p, mem[x].key); }
      mem := mem[x := mem[x].(parent := pre)];
      if pre == NIL {
        root := x;
      } else if mem[x].key < mem[pre].key {
        mem := mem[pre := mem[pre].(lchild := x)];
      } else {
        mem := mem[pre := mem[pre].(rchild := x)];
      }
      mem := mem[x := mem[x].(rchild := NIL)];
      mem := mem[x := mem[x].(lchild := NIL)];
      mem := mem[x := mem[x].(color := Red)];
      Repoint(old(mem), mem, {x, pre}, p, NIL, x, old(root), root, NIL);
    }

    /** `rb_insert` */
    method Insert(x: Addr) returns (ret: int)
      requires Valid() && x != NIL && (x != NULL ==> x in mem)
      modifies this
      ensures Valid() && (ret == 1 || ret == -1)
      ensures ret == 1 <==> x != NULL && old(mem[x].key) !in old(Contents())
      ensures ret == 1 ==> Contents() == old(Contents())[old(mem[x].key) := x]
      ensures ret == 1 ==> Nodes(tree) == old(Nodes(tree)) + {x}
      ensures ret == -1 ==> mem == old(mem) && root == old(root) && tree == old(tree)
      ensures Except(old(mem), mem, Nodes(tree))
    {
      if x == NULL {
        return -1;
      }
      var key := mem[x].key;
      var found, pre, p := FindSlot(key);
      if found {
        return -1;
      }
      PlugNodes(p, Leaf);
      assert x !in PNodes(p) by {
        if x in Nodes(tree) { NodeKey(mem, tree, root, x); }
      }
      FitsGrow(p, x, key);
      UnplugRedBlack(p, Leaf, Bh(tree));
      Attach(x, pre, p);
      ghost var t := Br(Leaf, x, Red, key, Leaf);
      assert RedFlaw(t, p, 0) && All(t, p) == PNodes(p) + {x};
      tree := InsertFixup(x, t, p, 0);
      return 1;
    }

    // ----- deletion -----

    /** Painting the node above the focus, and the one beside it. */
    method PaintUp(c: Color, ghost t: Tree, ghost p: Path, x: Addr)
      requires !p.Top? && x == p.n && At(mem, t, p, root)
      modifies this`mem
      ensures At(mem, t, DyeUp(p, c), root) && All(t, DyeUp(p, c)) == All(t, p)
      ensures Inorder(Plug(DyeUp(p, c), t)) == Inorder(Plug(p, t))
      ensures Except(old(mem), mem, All(t, p))
    {
      StepUp(mem, t, p, root);
      Paint(x, c, Zip(p, t), p.up);
      StepUp(mem, t, DyeUp(p, c), root);
    }

    method PaintSide(c: Color, ghost t: Tree, ghost p: Path, x: Addr)
      requires !p.Top? && Side(p).Br? && x == Side(p).n && At(mem, t, p, root)
      modifies this`mem
      ensures var p' := WithSide(p, Dye(Side(p), c));
        && At(mem, t, p', root) && All(t, p') == All(t, p)
        && Inorder(Plug(p', t)) == Inorder(Plug(p, t))
      ensures Except(old(mem), mem, All(t, p))
    {
      TurnAt(mem, t, p, root);
      Paint(x, c, Side(p), Turn(p, t));
      TurnAt(mem, Dye(Side(p), c), Turn(p, t), root);
    }

    /** Case 1 of `rb_delete_fixup` when the flawed node is a left child. */
    method DeleteCase1Left(bro: Addr, par: Addr, ghost t: Tree, ghost p: Path)
      requires p.GoL? && Side(p).Br? && At(mem, t, p, root) && bro == Side(p).n && par == p.n
      modifies this`root, this`mem
      ensures At(mem, t, RedSibling(p), root) && All(t, RedSibling(p)) == All(t, p)
      ensures Inorder(Plug(RedSibling(p), t)) == Inorder(Plug(p, t))
      ensures Except(old(mem), mem, All(t, p))
    {
      PaintSide(Black, t, p, bro);
      ghost var p1 := WithSide(p, Dye(Side(p), Black));
      PaintUp(Red, t, p1, par);
      ghost var p2 := DyeUp(p1, Red);
      StepUp(mem, t, p2, root);
      var _ := LeftRotate(par, Zip(p2, t), p.up);
      RotLSame(Zip(p2, t), p.up);
      ghost var p3 := RedSibling(p);
      StepUp(mem, Zip(p3, t), p3.up, root);
      StepUp(mem, t, p3, root);
    }

    /** Case 3 of `rb_delete_fixup` when the flawed node is a left child. */
    method DeleteCase3Left(bro: Addr, ghost t: Tree, ghost p: Path)
      requires p.GoL? && Side(p).Br? && Side(p).l.Br? && At(mem, t, p, root) && bro == Side(p).n
      modifies this`root, this`mem
      ensures At(mem, t, NearNephew(p), root) && All(t, NearNephew(p)) == All(t, p)
      ensures Inorder(Plug(NearNephew(p), t)) == Inorder(Plug(p, t))
      ensures Except(old(mem), mem, All(t, p))
    {
      ghost var s, d := Side(p), Turn(p, t);
      TurnAt(mem, t, p, root);
      Paint(bro, Red, s, d);
      ghost var e := GoL(d, s.n, Red, s.k, s.r);
      StepUp(mem, s.l, e, root);
      var near := mem[bro].lchild;
      Paint(near, Black, s.l, e);
      ghost var f := Zip(e, Dye(s.l, Black));
      StepUp(mem, Dye(s.l, Black), e, root);
      var _ := RightRotate(bro, f, d);
      RotRSame(f, d);
      TurnAt(mem, RotR(f), d, root);
    }

    /** Case 4 of `rb_delete_fixup` when the flawed node is a left child. */
    method DeleteCase4Left(bro: Addr, par: Addr, ghost t: Tree, ghost p: Path)
      requires p.GoL? && Side(p).Br? && Side(p).r.Br? && At(mem, t, p, root) && bro == Side(p).n && par == p.n
      modifies this`root, this`mem
      ensures At(mem, FarNephew(t, p), p.up, root) && All(FarNephew(t, p), p.up) == All(t, p)
      ensures Inorder(Plug(p.up, FarNephew(t, p))) == Inorder(Plug(p, t))
      ensures Except(old(mem), mem, All(t, p))
    {
      Kin(mem, t, p, root);
      PaintSide(mem[par].color, t, p, bro);
      ghost var s := Dye(Side(p), p.c);
      ghost var p1 := WithSide(p, s);
      PaintUp(Black, t, p1, par);
      ghost var p2 := DyeUp(p1, Black);
      TurnAt(mem, t, p2, root);
      ghost var e := GoR(Turn(p2, t), s.l, s.n, s.c, s.k);
      StepUp(mem, s.r, e, root);
      var far := mem[bro].rchild;
      Paint(far, Black, s.r, e);
      StepUp(mem, Dye(s.r, Black), e, root);
      ghost var s' := Zip(e, Dye(s.r, Black));
      TurnAt(mem, s', Turn(p2, t), root);
      ghost var p3 := WithSide(p2, s');
      StepUp(mem, t, p3, root);
      var _ := LeftRotate(par, Zip(p3, t), p.up);
      RotLSame(Zip(p3, t), p.up);
    }

    /** Case 1 of `rb_delete_fixup` when the flawed node is a right child. */
    method DeleteCase1Right(bro: Addr, par: Addr, ghost t: Tree, ghost p: Path)
      requires p.GoR? && Side(p).Br? && At(mem, t, p, root) && bro == Side(p).n && par == p.n
      modifies this`root, this`mem
      ensures At(mem, t, RedSibling(p), root) && All(t, RedSibling(p)) == All(t, p)
      ensures Inorder(Plug(RedSibling(p), t)) == Inorder(Plug(p, t))
      ensures Except(old(mem), mem, All(t, p))
    {
      PaintSide(Black, t, p, bro);
      ghost var p1 := WithSide(p, Dye(Side(p), Black));
      PaintUp(Red, t, p1, par);
      ghost var p2 := DyeUp(p1, Red);
      StepUp(mem, t, p2, root);
      var _ := RightRotate(par, Zip(p2, t), p.up);
      RotRSame(Zip(p2, t), p.up);
      ghost var p3 := RedSibling(p);
      StepUp(mem, Zip(p3, t), p3.up, root);
      StepUp(mem, t, p3, root);
    }

    /** Case 3 of `rb_delete_fixup` when the flawed node is a right child. */
    method DeleteCase3Right(bro: Addr, ghost t: Tree, ghost p: Path)
      requires p.GoR? && Side(p).Br? && Side(p).r.Br? && At(mem, t, p, root) && bro == Side(p).n
      modifies this`root, this`mem
      ensures At(mem, t, NearNephew(p), root) && All(t, NearNephew(p)) == All(t, p)
      ensures Inorder(Plug(NearNephew(p), t)) == Inorder(Plug(p, t))
      ensures Except(old(mem), mem, All(t, p))
    {
      ghost var s, d := Side(p), Turn(p, t);
      TurnAt(mem, t, p, root);
      Paint(bro, Red, s, d);
      ghost var e := GoR(d, s.l, s.n, Red, s.k);
      StepUp(mem, s.r, e, root);
      var near := mem[bro].rchild;
      Paint(near, Black, s.r, e);
      ghost var f := Zip(e, Dye(s.r, Black));
      StepUp(mem, Dye(s.r, Black), e, root);
      var _ := LeftRotate(bro, f, d);
      RotLSame(f, d);
      TurnAt(mem, RotL(f), d, root);
    }

    /** Case 4 of `rb_delete_fixup` when the flawed node is a right child. */
    method DeleteCase4Right(bro: Addr, par: Addr, ghost t: Tree, ghost p: Path)
      requires p.GoR? && Side(p).Br? && Side(p).l.Br? && At(mem, t, p, root) && bro == Side(p).n && par == p.n
      modifies this`root, this`mem
      ensures At(mem, FarNephew(t, p), p.up, root) && All(FarNephew(t, p), p.up) == All(t, p)
      ensures Inorder(Plug(p.up, FarNephew(t, p))) == Inorder(Plug(p, t))
      ensures Except(old(mem), mem, All(t, p))
    {
      Kin(mem, t, p, root);
      PaintSide(mem[par].color, t, p, bro);
      ghost var s := Dye(Side(p), p.c);
      ghost var p1 := WithSide(p, s);
      PaintUp(Black, t, p1, par);
      ghost var p2 := DyeUp(p1, Black);
      TurnAt(mem, t, p2, root);
      ghost var e := GoL(Turn(p2, t), s.n, s.c, s.k, s.r);
      StepUp(mem, s.l, e, root);
      var far := mem[bro].lchild;
      Paint(far, Black, s.l, e);
      StepUp(mem, Dye(s.l, Black), e, root);
      ghost var s' := Zip(e, Dye(s.l, Black));
      TurnAt(mem, s', Turn(p2, t), root);
      ghost var p3 := WithSide(p2, s');
      StepUp(mem, t, p3, root);
      var _ := RightRotate(par, Zip(p3, t), p.up);
      RotRSame(Zip(p3, t), p.up);
    }

    /** Case 2 of `rb_delete_fixup`, the same on both sides. */
    method DeletePassUp(x: Addr, bro: Addr, ghost t: Tree, ghost p: Path, ghost h: int)
      returns (bad: Addr, ghost t': Tree, ghost h': int)
      requires Sentinel() && At(mem, t, p, root) && BlackFlaw(t, p, h) && ColorOf(t) == Black
      requires !p.Top? && x == RootOf(t) && x in mem && mem[x].parent == p.n
      requires Side(p).Br? && Side(p).c == Black && bro == Side(p).n
      requires ColorOf(Side(p).l) == Black && ColorOf(Side(p).r) == Black
      modifies this`mem
      ensures At(mem, t', p.up, root) && BlackFlaw(t', p.up, h') && t'.Br? && bad == t'.n && t'.c == p.c
      ensures Inorder(Plug(p.up, t')) == Inorder(Plug(p, t)) && All(t', p.up) == All(t, p)
      ensures Except(old(mem), mem, All(t, p))
    {
      PassUpFlaw(t, p, h);
      PaintSide(Red, t, p, bro);
      ghost var q := WithSide(p, Dye(Side(p), Red));
      Kin(mem, t, q, root);
      StepUp(mem, t, q, root);
      bad := mem[x].parent;
      t', h' := Zip(q, t), h + Weight(p.c);
    }

    /** The body of the loop of `rb_delete_fixup` when the flawed node is a left child. */
    method DeleteRoundLeft(x: Addr, ghost t: Tree, ghost p: Path, ghost h: int)
      returns (bad: Addr, ghost t': Tree, ghost p': Path, ghost h': int)
      requires Sentinel() && At(mem, t, p, root) && BlackFlaw(t, p, h) && x == RootOf(t)
      requires ColorOf(t) == Black && p.GoL? && x in mem && mem[x].parent == p.n
      modifies this`root, this`mem
      ensures At(mem, t', p', root) && BlackFlaw(t', p', h') && bad == RootOf(t') && t'.Br?
      ensures Inorder(Plug(p', t')) == Inorder(Plug(p, t)) && All(t', p') == All(t, p)
      ensures ColorOf(t') == Red || PathLen(p') < PathLen(p)
      ensures Except(old(mem), mem, All(t, p))
    {
      ghost var q := p;
      Kin(mem, t, p, root);
      SiblingExists(t, p, h);
      var bro := mem[mem[x].parent].rchild;
      if mem[bro].color == Red {
        RedSiblingFlaw(t, p, h);
        DeleteCase1Left(bro, mem[x].parent, t, p);
        q := RedSibling(p);
        Kin(mem, t, q, root);
        bro := mem[mem[x].parent].rchild;
      }
      bad, t', p', h' := DeleteBlackLeft(x, bro, t, q, h);
    }

    /** Cases 2 to 4 of `rb_delete_fixup` when the flawed node is a left child. */
    method DeleteBlackLeft(x: Addr, sibling: Addr, ghost t: Tree, ghost p: Path, ghost h: int)
      returns (bad: Addr, ghost t': Tree, ghost p': Path, ghost h': int)
      requires Sentinel() && At(mem, t, p, root) && BlackFlaw(t, p, h) && x == RootOf(t)
      requires ColorOf(t) == Black && p.GoL? && x in mem && mem[x].parent == p.n
      requires Side(p).Br? && Side(p).c == Black && sibling == Side(p).n
      modifies this`root, this`mem
      ensures At(mem, t', p', root) && BlackFlaw(t', p', h') && bad == RootOf(t') && t'.Br?
      ensures Inorder(Plug(p', t')) == Inorder(Plug(p, t)) && All(t', p') == All(t, p)
      ensures if p.c == Red then ColorOf(t') == Red || p' == Top else PathLen(p') < PathLen(p)
      ensures Except(old(mem), mem, All(t, p))
    {
      var bro := sibling;
      ghost var q := p;
      TurnAt(mem, t, p, root);
      Colors(mem, Side(p), Turn(p, t), root);
      if mem[mem[bro].lchild].color == Black && mem[mem[bro].rchild].color == Black {
        bad, t', h' := DeletePassUp(x, bro, t, p, h);
        p' := p.up;
        return;
      } else if mem[mem[bro].rchild].color == Black {
        NearNephewFlaw(t, p, h);
        DeleteCase3Left(bro, t, p);
        q := NearNephew(p);
        Kin(mem, t, q, root);
        bro := mem[mem[x].parent].rchild;
      }
      FarNephewFixed(t, q, h);
      DeleteCase4Left(bro, mem[x].parent, t, q);
      t', p' := Plug(q.up, FarNephew(t, q)), Top;
      h' := Bh(t');
      WholeAgain(mem, FarNephew(t, q), q.up, root);
      bad := root;
    }

    /** The body of the loop of `rb_delete_fixup` when the flawed node is a right child. */
    method DeleteRoundRight(x: Addr, ghost t: Tree, ghost p: Path, ghost h: int)
      returns (bad: Addr, ghost t': Tree, ghost p': Path, ghost h': int)
      requires Sentinel() && At(mem, t, p, root) && BlackFlaw(t, p, h) && x == RootOf(t)
      requires ColorOf(t) == Black && p.GoR? && x in mem && mem[x].parent == p.n
      modifies this`root, this`mem
      ensures At(mem, t', p', root) && BlackFlaw(t', p', h') && bad == RootOf(t') && t'.Br?
      ensures Inorder(Plug(p', t')) == Inorder(Plug(p, t)) && All(t', p') == All(t, p)
      ensures ColorOf(t') == Red || PathLen(p') < PathLen(p)
      ensures Except(old(mem), mem, All(t, p))
    {
      ghost var q := p;
      Kin(mem, t, p, root);
      SiblingExists(t, p, h);
      var bro := mem[mem[x].parent].lchild;
      if mem[bro].color == Red {
        RedSiblingFlaw(t, p, h);
        DeleteCase1Right(bro, mem[x].parent, t, p);
        q := RedSibling(p);
        Kin(mem, t, q, root);
        bro := mem[mem[x].parent].lchild;
      }
      bad, t', p', h' := DeleteBlackRight(x, bro, t, q, h);
    }

    /** Cases 2 to 4 of `rb_delete_fixup` when the flawed node is a right child. */
    method DeleteBlackRight(x: Addr, sibling: Addr, ghost t: Tree, ghost p: Path, ghost h: int)
      returns (bad: Addr, ghost t': Tree, ghost p': Path, ghost h': int)
      requires Sentinel() && At(mem, t, p, root) && BlackFlaw(t, p, h) && x == RootOf(t)
      requires ColorOf(t) == Black && p.GoR? && x in mem && mem[x].parent == p.n
      requires Side(p).Br? && Side(p).c == Black && sibling == Side(p).n
      modifies this`root, this`mem
      ensures At(mem, t', p', root) && BlackFlaw(t', p', h') && bad == RootOf(t') && t'.Br?
      ensures Inorder(Plug(p', t')) == Inorder(Plug(p, t)) && All(t', p') == All(t, p)
      ensures if p.c == Red then ColorOf(t') == Red || p' == Top else PathLen(p') < PathLen(p)
      ensures Except(old(mem), mem, All(t, p))
    {
      var bro := sibling;
      ghost var q := p;
      TurnAt(mem, t, p, root);
      Colors(mem, Side(p), Turn(p, t), root);
      if mem[mem[bro].rchild].color == Black && mem[mem[bro].lchild].color == Black {
        bad, t', h' := DeletePassUp(x, bro, t, p, h);
        p' := p.up;
        return;
      } else if mem[mem[bro].lchild].color == Black {
        NearNephewFlaw(t, p, h);
        DeleteCase3Right(bro, t, p);
        q := NearNephew(p);
        Kin(mem, t, q, root);
        bro := mem[mem[x].parent].lchild;
      }
      FarNephewFixed(t, q, h);
      DeleteCase4Right(bro, mem[x].parent, t, q);
      t', p' := Plug(q.up, FarNephew(t, q)), Top;
      h' := Bh(t');
      WholeAgain(mem, FarNephew(t, q), q.up, root);
      bad := root;
    }

    /** `rb_delete_fixup`, which may start at the sentinel: then its parent field
        says where the hole is. */
    method DeleteFixup(x: Addr, ghost t0: Tree, ghost p0: Path, ghost h0: int) returns (ghost fixed: Tree)
      requires Sentinel() && At(mem, t0, p0, root) && BlackFlaw(t0, p0, h0) && x == RootOf(t0)
      requires x in mem && mem[x].parent == Par(p0, NIL)
      modifies this`root, this`mem
      ensures Sentinel() && At(mem, fixed, Top, root) && RedBlack(fixed)
      ensures Inorder(fixed) == Inorder(Plug(p0, t0)) && Nodes(fixed) == All(t0, p0)
      ensures Except(old(mem), mem, All(t0, p0) + {NIL})
    {
      var bad := x;
      ghost var t, p, h := t0, p0, h0;
      while bad != root && mem[bad].color == Black
        invariant Sentinel() && At(mem, t, p, root) && BlackFlaw(t, p, h) && bad == RootOf(t)
        invariant bad in mem && mem[bad].parent == Par(p, NIL) && mem[bad].color == ColorOf(t)
        invariant Inorder(Plug(p, t)) == Inorder(Plug(p0, t0)) && All(t, p) == All(t0, p0)
        invariant Except(old(mem), mem, All(t0, p0))
        decreases if ColorOf(t) == Red then 0 else 1 + PathLen(p)
      {
        Kin(mem, t, p, root);
        SiblingExists(t, p, h);
        if bad == mem[mem[bad].parent].lchild {
          bad, t, p, h := DeleteRoundLeft(bad, t, p, h);
        } else {
          bad, t, p, h := DeleteRoundRight(bad, t, p, h);
        }
      }
      fixed := Blacken(bad, t, p, h);
    }

    /** The line after its loop. */
    method Blacken(bad: Addr, ghost t: Tree, ghost p: Path, ghost h: int) returns (ghost fixed: Tree)
      requires Sentinel() && At(mem, t, p, root) && BlackFlaw(t, p, h) && bad == RootOf(t) && bad in mem
      requires mem[bad].color == ColorOf(t) && (bad == root || mem[bad].color == Red)
      modifies this`mem
      ensures Sentinel() && At(mem, fixed, Top, root) && RedBlack(fixed)
      ensures Inorder(fixed) == Inorder(Plug(p, t)) && Nodes(fixed) == All(t, p)
      ensures Except(old(mem), mem, All(t, p) + {NIL})
    {
      if !p.Top? { TopOfPath(mem, p, bad, root, NIL); }
      BlackFlawGone(t, p, h);
      if t.Br? {
        PaintAt(mem, t, Black, p, root);
      }
      mem := mem[bad := mem[bad].(color := Black)];
      fixed := Plug(p, Dye(t, Black));
      PlugNodes(p, Dye(t, Black));
      assert At(mem, Dye(t, Black), p, root);
      Refocus(mem, p, Dye(t, Black), root);
    }

    /** `rb_transplant`: the subtree `f` of `v` takes the place of `u`.  The parent
        field of `v` is written even when `v` is the sentinel. */
    method Transplant(u: Addr, v: Addr, ghost p: Path, ghost f: Tree, ghost was: Addr)
      requires u != NIL && u in mem && u !in PNodes(p) && mem[u].parent == Par(p, NIL)
      requires PLinked(mem, p, u, root, NIL) && Apart(f, p) && Linked(mem, f, was)
      requires v == RootOf(f) && v != u && Sentinel()
      modifies this`root, this`mem
      ensures At(mem, f, p, root) && v in mem && mem[v].parent == Par(p, NIL) && Sentinel()
      ensures !p.Top? ==> root == old(root)
      ensures Except(old(mem), mem, {v} + if p.Top? then {} else {p.n})
    {
      if !p.Top? { TopOfPath(mem, p, u, root, NIL); }
      assert f.Br? ==> f.n in Nodes(f);
      if u == NIL || u == root {
        root := v;
      } else if u == mem[mem[u].parent].lchild {
        var up := mem[u].parent;
        mem := mem[up := mem[up].(lchild := v)];
      } else {
        var up := mem[u].parent;
        mem := mem[up := mem[up].(rchild := v)];
      }
      mem := mem[v := mem[v].(parent := mem[u].parent)];
      ghost var s := {v} + if p.Top? then {} else {p.n};
      Reparent(old(mem), mem, s, f, was, Par(p, NIL));
      Repoint(old(mem), mem, s, p, u, v, old(root), root, NIL);
    }

    /** `rb_tree_minimum` */
    method TreeMinimum(x: Addr, ghost t: Tree, ghost p: Path) returns (y: Addr, ghost q: Path, ghost u: Tree)
      requires At(mem, t, p, root) && t.Br? && x == t.n
      ensures AllLeft(q) && Plug(q, u) == t && At(mem, u, Compose(q, p), root)
      ensures u.Br? && u.l.Leaf? && y == u.n
    {
      y, q, u := x, Top, t;
      while mem[y].lchild != NIL
        invariant AllLeft(q) && Plug(q, u) == t && At(mem, u, Compose(q, p), root)
        invariant u.Br? && y == u.n
        decreases u
      {
        y := mem[y].lchild;
        q, u := GoL(q, u.n, u.c, u.k, u.r), u.l;
        StepUp(mem, u, Compose(q, p), root);
      }
    }

    /** The end of the two-children case of `rb_delete`: `y`, already in the place
        of `z`, takes over its left subtree and its colour. */
    method Adopt(z: Addr, y: Addr, ghost p: Path, ghost l: Tree, ghost d: Tree)
      requires d.Br? && d.l.Leaf? && d.n == y && At(mem, d, p, root)
      requires l.Br? && Linked(mem, l, z) && Sep(l) && Nodes(l) !! All(d, p) && NIL !in Nodes(l)
      requires z in mem && z !in Nodes(l) && z !in All(d, p) && mem[z].lchild == l.n
      modifies this`mem
      ensures At(mem, Br(l, y, old(mem)[z].color, d.k, d.r), p, root)
      ensures Except(old(mem), mem, {y, l.n})
    {
      assert y in Nodes(d) && l.n in Nodes(l);
      mem := mem[y := mem[y].(lchild := mem[z].lchild)];
      var left := mem[y].lchild;
      mem := mem[left := mem[left].(parent := y)];
      mem := mem[y := mem[y].(color := mem[z].color)];
      Reparent(old(mem), mem, {y, l.n}, l, z, y);
      LinkedFrame(old(mem), mem, {y, l.n}, d.r, y);
      PLinkedFrame(old(mem), mem, {y, l.n}, p, y, root, NIL);
    }

    /** The branch of `rb_delete` in which the successor `y` is not a child of `z`. */
    method Lift(z: Addr, y: Addr, x: Addr, ghost q: Path, ghost u: Tree, ghost b: Path)
      requires Sentinel() && At(mem, u, Compose(q, b), root) && !q.Top? && b.GoR? && b.n == z
      requires u.Br? && u.l.Leaf? && y == u.n && x == RootOf(u.r)
      modifies this`root, this`mem
      ensures root == old(root) && Sentinel() && x in mem && mem[x].parent == q.n
      ensures Linked(mem, Br(Leaf, y, u.c, u.k, Plug(q, u.r)), q.n)
      ensures Except(old(mem), mem, Nodes(Plug(q, u)) + {NIL})
    {
      LiftOut(z, y, x, q, u, b);
      TakeRight(z, y, u, Plug(q, u.r), b);
    }

    /** The right subtree of `y` takes its place. */
    method LiftOut(z: Addr, y: Addr, x: Addr, ghost q: Path, ghost u: Tree, ghost b: Path)
      requires Sentinel() && At(mem, u, Compose(q, b), root) && !q.Top? && b.GoR? && b.n == z
      requires u.Br? && u.l.Leaf? && y == u.n && x == RootOf(u.r)
      modifies this`root, this`mem
      ensures root == old(root) && Sentinel() && x in mem && mem[x].parent == q.n
      ensures var rest := Plug(q, u.r);
        At(mem, rest, b, root) && rest.Br? && y !in Nodes(rest) && x != rest.n && rest.n in Nodes(Plug(q, u))
      ensures y in mem && y != NIL && y != z && y != x && y in Nodes(Plug(q, u))
      ensures mem[y].color == u.c && mem[y].key == u.k && mem[y].lchild == NIL && mem[y].parent == q.n
      ensures Except(old(mem), mem, Nodes(Plug(q, u)) + {NIL})
    {
      ghost var path := Compose(q, b);
      RefocusIn(mem, q, b, u, root);
      ExtractNodes(q, u);
      PlugNodes(q, u);
      ComposeNodes(q, b);
      assert u.r.Br? ==> u.r.n in Nodes(u.r);
      assert q.n in PNodes(q);
      Transplant(y, x, path, u.r, y);
      RefocusIn(mem, q, b, u.r, root);
      PlugRoot(q, u.r);
    }

    /** `y` becomes the parent of what is left of the right subtree of `z`. */
    method TakeRight(z: Addr, y: Addr, ghost u: Tree, ghost rest: Tree, ghost b: Path)
      requires At(mem, rest, b, root) && rest.Br? && b.GoR? && b.n == z
      requires y in mem && y != NIL && y !in Nodes(rest) && y != z
      requires u.Br? && mem[y].color == u.c && mem[y].key == u.k && mem[y].lchild == NIL
      modifies this`mem
      ensures Linked(mem, Br(Leaf, y, u.c, u.k, rest), old(mem)[y].parent)
      ensures Except(old(mem), mem, {y, rest.n})
    {
      Kin(mem, rest, b, root);
      mem := mem[y := mem[y].(rchild := mem[z].rchild)];
      var top := mem[y].rchild;
      mem := mem[top := mem[top].(parent := y)];
      Reparent(old(mem), mem, {y, top}, rest, z, y);
    }

    /** The two-children case of `rb_delete` up to its last transplant: the leftmost
        node `y` of the right subtree `r` of `b.n` comes to stand above the rest of it. */
    method Extract(z: Addr, ghost r: Tree, ghost b: Path)
      returns (y: Addr, x: Addr, color: Color, ghost q: Path, ghost u: Tree, ghost was: Addr)
      requires Sentinel() && At(mem, r, b, root) && r.Br? && b.GoR? && b.n == z
      modifies this`root, this`mem
      ensures AllLeft(q) && Plug(q, u) == r && u.Br? && u.l.Leaf?
      ensures y == u.n && x == RootOf(u.r) && color == u.c && root == old(root)
      ensures Linked(mem, Br(Leaf, y, u.c, u.k, Plug(q, u.r)), was)
      ensures Sentinel() && x in mem && mem[x].parent == Par(q, y)
      ensures Except(old(mem), mem, Nodes(r) + {NIL})
    {
      y, q, u := TreeMinimum(mem[z].rchild, r, b);
      ExtractNodes(q, u);
      color := mem[y].color;
      x := mem[y].rchild;
      ghost var path := Compose(q, b);
      if mem[y].parent == z {
        assert q.Top?;
        was := z;
        assert u.r.Br? ==> u.r.n in Nodes(u.r);
        assert Linked(mem, u.r, y);
        ghost var m := mem;
        mem := mem[x := mem[x].(parent := y)];
        Reparent(m, mem, {x}, u.r, y, y);
      } else {
        assert !q.Top?;
        was := q.n;
        ghost var m := mem;
        RefocusIn(mem, q, b, u, root);
        Lift(z, y, x, q, u, b);
        ComposeNodes(q, b);
      }
    }

    /** The second half of the two-children case: `d`, headed by `y`, replaces `t`. */
    method Install(z: Addr, y: Addr, ghost t: Tree, ghost p: Path, ghost d: Tree, ghost was: Addr)
      requires t.Br? && t.n == z && t.l.Br? && Apart(t, p)
      requires Sentinel() && z in mem && mem[z] == Node(t.c, t.k, RootOf(t.l), mem[z].rchild, Par(p, NIL))
      requires PLinked(mem, p, z, root, NIL) && Linked(mem, t.l, z)
      requires d.Br? && d.l.Leaf? && d.n == y && Linked(mem, d, was) && Sep(d) && Nodes(d) == Nodes(t.r)
      modifies this`root, this`mem
      ensures Sentinel() && At(mem, Br(t.l, y, t.c, d.k, d.r), p, root)
      ensures Except(old(mem), mem, {y, t.l.n} + if p.Top? then {} else {p.n})
      ensures Except(old(mem), mem, All(t, p) - {z} + {NIL})
    {
      ghost var l := t.l;
      assert y in Nodes(d) && l.n in Nodes(l);
      Transplant(z, y, p, d, was);
      LinkedFrame(old(mem), mem, {y} + if p.Top? then {} else {p.n}, l, z);
      Adopt(z, y, p, l, d);
    }

    /** The first half: everything around the right subtree stays as it was. */
    method Detach(z: Addr, ghost t: Tree, ghost p: Path)
      returns (y: Addr, x: Addr, color: Color, ghost q: Path, ghost u: Tree, ghost was: Addr)
      requires Sentinel() && At(mem, t, p, root) && t.Br? && t.n == z && t.l.Br? && t.r.Br?
      modifies this`root, this`mem
      ensures AllLeft(q) && Plug(q, u) == t.r && u.Br? && u.l.Leaf?
      ensures y == u.n && x == RootOf(u.r) && color == u.c
      ensures Sentinel() && x in mem && mem[x].parent == Par(q, y)
      ensures z in mem && mem[z] == Node(t.c, t.k, RootOf(t.l), mem[z].rchild, Par(p, NIL))
      ensures PLinked(mem, p, z, root, NIL) && Linked(mem, t.l, z)
      ensures Linked(mem, Br(Leaf, y, u.c, u.k, Plug(q, u.r)), was)
      ensures Except(old(mem), mem, All(t, p) - {z} + {NIL})
    {
      ghost var b := GoR(p, t.l, z, t.c, t.k);
      StepUp(mem, t.r, b, root);
      y, x, color, q, u, was := Extract(z, t.r, b);
      LinkedFrame(old(mem), mem, Nodes(t.r) + {NIL}, t.l, z);
      PLinkedFrame(old(mem), mem, Nodes(t.r) + {NIL}, p, z, root, NIL);
    }

    /** `rb_delete` of a node with two children. */
    method UnlinkTwo(z: Addr, ghost t: Tree, ghost p: Path)
      returns (x: Addr, color: Color, ghost q: Path, ghost u: Tree, ghost path: Path)
      requires Sentinel() && At(mem, t, p, root) && t.Br? && t.n == z && t.l.Br? && t.r.Br?
      modifies this`root, this`mem
      ensures AllLeft(q) && Plug(q, u) == t.r && u.Br? && u.l.Leaf? && color == u.c
      ensures path == Compose(q, GoR(p, t.l, u.n, t.c, u.k))
      ensures Sentinel() && At(mem, u.r, path, root)
      ensures x == RootOf(u.r) && x in mem && mem[x].parent == Par(path, NIL)
      ensures Except(old(mem), mem, All(t, p) - {z} + {NIL})
    {
      var y;
      ghost var was;
      y, x, color, q, u, was := Detach(z, t, p);
      ExtractNodes(q, u);
      Install(z, y, t, p, Br(Leaf, y, u.c, u.k, Plug(q, u.r)), was);
      path := Compose(q, GoR(p, t.l, y, t.c, u.k));
      Resettle(mem, t, p, q, u, root);
    }

    /** `rb_delete` of a node with at most one child, whose subtree is `f`. */
    method UnlinkOne(z: Addr, x: Addr, ghost t: Tree, ghost p: Path, ghost f: Tree)
      requires Sentinel() && At(mem, t, p, root) && t.Br? && t.n == z && x == RootOf(f)
      requires (f == t.r && t.l.Leaf?) || (f == t.l && t.r.Leaf?)
      modifies this`root, this`mem
      ensures Sentinel() && At(mem, f, p, root) && x in mem && mem[x].parent == Par(p, NIL)
      ensures All(f, p) == All(t, p) - {z}
      ensures Except(old(mem), mem, All(t, p) - {z} + {NIL})
    {
      assert f.Br? ==> f.n in Nodes(f);
      Transplant(z, x, p, f, z);
    }

    /** Everything `rb_delete` does before its fix-up. */
    method Unlink(z: Addr, ghost t: Tree, ghost p: Path)
      returns (x: Addr, color: Color, ghost f: Tree, ghost q: Path, ghost h: int)
      requires Sentinel() && At(mem, t, p, root) && t.Br? && t.n == z
      requires RedBlack(Plug(p, t)) && Sorted(Inorder(Plug(p, t)))
      modifies this`root, this`mem
      ensures Sentinel() && At(mem, f, q, root) && Gap(f, q, h, color)
      ensures x == RootOf(f) && x in mem && mem[x].parent == Par(q, NIL)
      ensures Dropped(Plug(p, t), Plug(q, f), t.k) && All(f, q) == All(t, p) - {z}
      ensures Except(old(mem), mem, All(t, p) - {z} + {NIL})
    {
      Colors(mem, t, p, root);
      color := mem[z].color;
      h := Bh(t) - Weight(t.c);
      if mem[z].lchild == NIL {
        assert t.l.Leaf?;
        GapHere(t, p);
        DropChild(t, p, t.r);
        x, f, q := mem[z].rchild, t.r, p;
        UnlinkOne(z, x, t, p, f);
      } else if mem[z].rchild == NIL {
        assert t.r.Leaf?;
        GapHere(t, p);
        DropChild(t, p, t.l);
        x, f, q := mem[z].lchild, t.l, p;
        UnlinkOne(z, x, t, p, f);
      } else {
        x, color, f, q, h := UnlinkBelow(z, t, p);
      }
    }

    /** Its branch of two children. */
    method UnlinkBelow(z: Addr, ghost t: Tree, ghost p: Path)
      returns (x: Addr, color: Color, ghost f: Tree, ghost q: Path, ghost h: int)
      requires Sentinel() && At(mem, t, p, root) && t.Br? && t.n == z && t.l.Br? && t.r.Br?
      requires RedBlack(Plug(p, t)) && Sorted(Inorder(Plug(p, t)))
      modifies this`root, this`mem
      ensures Sentinel() && At(mem, f, q, root) && Gap(f, q, h, color)
      ensures x == RootOf(f) && x in mem && mem[x].parent == Par(q, NIL)
      ensures Dropped(Plug(p, t), Plug(q, f), t.k) && All(f, q) == All(t, p) - {z}
      ensures Except(old(mem), mem, All(t, p) - {z} + {NIL})
    {
      ghost var r, u;
      x, color, r, u, q := UnlinkTwo(z, t, p);
      f, h := u.r, Bh(u) - Weight(u.c);
      GapBelow(t, p, r, u);
      DropTwoEntries(t, p, r, u);
      DropTwoNodes(t, p, r, u);
    }

    /** The fix-up, which `rb_delete` calls only when the node that left its place was black. */
    method CloseGap(x: Addr, color: Color, ghost f: Tree, ghost q: Path, ghost h: int) returns (ghost fixed: Tree)
      requires Sentinel() && At(mem, f, q, root) && Gap(f, q, h, color)
      requires x == RootOf(f) && x in mem && mem[x].parent == Par(q, NIL)
      modifies this`root, this`mem
      ensures Sentinel() && At(mem, fixed, Top, root) && RedBlack(fixed)
      ensures Inorder(fixed) == Inorder(Plug(q, f)) && Nodes(fixed) == All(f, q)
      ensures Except(old(mem), mem, All(f, q) + {NIL})
    {
      if color == Black {
        fixed := DeleteFixup(x, f, q, h);
      } else {
        GapRed(f, q, h);
        Refocus(mem, q, f, root);
        PlugNodes(q, f);
        fixed := Plug(q, f);
      }
    }

    /** `rb_delete` */
    method Delete(z: Addr) returns (ret: int)
      requires Valid() && (z == NULL || z in Nodes(tree))
      modifies this
      ensures Valid() && ret == (if z == NULL then -1 else 1)
      ensures z == NULL ==> mem == old(mem) && root == old(root) && tree == old(tree)
      ensures z != NULL ==> z in old(mem) && old(mem[z].key) in old(Contents())
      ensures z != NULL ==> Contents() == old(Contents()) - {old(mem[z].key)}
      ensures z != NULL ==> Nodes(tree) == old(Nodes(tree)) - {z}
      ensures Except(old(mem), mem, Nodes(tree) + {NIL})
    {
      if z == NULL {
        return -1;
      }
      NodeKey(mem, tree, root, z);
      ghost var p, t := Locate(Top, tree, z);
      Refocus(mem, p, t, root);
      PlugNodes(p, t);
      var x, color, f, q, h := Unlink(z, t, p);
      tree := CloseGap(x, color, f, q, h);
      return 1;
    }
  }
}
