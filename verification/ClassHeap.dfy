/**
 * `make_metaclass` and what uses it, on the heap of class objects.
 */
module ClassHeap {
  import opened Metaclass

  class World {
    const basicObject: RClass
    const object_: RClass
    const module_: RClass
    /** `rb_cClass`. */
    const cls: RClass
    ghost var classes: set<RClass>
    ghost var shape: Shape

    /** The four classes there are at first: one chain of superclasses, and all of class Class. */
    static ghost predicate Four(b: RClass, o: RClass, m: RClass, c: RClass)
      reads b, o, m, c
    {
      && Plain(b) && Plain(o) && Plain(m) && Plain(c)
      && b.super == null && o.super == b && m.super == o && c.super == m
      && b.klass == o.klass == m.klass == c.klass == c
    }

    ghost predicate AtBoot()
      reads this`classes, basicObject, object_, module_, cls
    {
      classes == {basicObject, object_, module_, cls} && Four(basicObject, object_, module_, cls)
    }

    /** `Init_class_hierarchy`. */
    constructor ()
      ensures Holds({}) && fresh(classes) && AtBoot()
    {
      hide Four, Inv, Snap, BootShape, Holds;
      var b, o, m, c := FourClasses();
      basicObject, object_, module_, cls := b, o, m, c;
      classes := {b, o, m, c};
      shape := BootShape(b, o, m, c);
      new;
      Booted();
    }

    static method FourClasses() returns (b: RClass, o: RClass, m: RClass, c: RClass)
      ensures fresh(b) && fresh(o) && fresh(m) && fresh(c) && Four(b, o, m, c)
    {
      b := new RClass(false, null, false, 0, false, null, null);
      o := new RClass(false, null, false, 0, false, null, b);
      m := new RClass(false, null, false, 0, false, null, o);
      c := new RClass(false, null, false, 0, false, null, m);
      c.klass := c;
      m.klass := c;
      o.klass := c;
      b.klass := c;
    }

    lemma Booted()
      requires AtBoot() && shape == BootShape(basicObject, object_, module_, cls)
      ensures Holds({})
    {
      hide Inv;
      Boot(basicObject, object_, module_, cls);
      assert Snap() == BootNodes(basicObject, object_, module_, cls);
    }

    ghost function Snap(): Nodes
      reads this`classes, classes
    {
      map x | x in classes :: Node(x.klass, x.super)
    }

    ghost predicate Holds(u: set<RClass>)
      reads this, classes
    {
      Inv(Snap(), shape, u) && shape.tower[0] == cls
    }

    ghost predicate Ready(k: RClass, u: set<RClass>)
      reads this, classes
    {
      Holds(u) && k in classes && !k.iclass && k !in u && Above(u, k.level) && (k.odd ==> u == {})
    }

    /** The metaclasses that are being made stand above level n or come from an object. */
    static ghost predicate Above(u: set<RClass>, n: nat) { forall x :: x in u ==> x.level == n + 1 || x.odd }

    /** The new metaclass p of k belongs to the metaclass of Class at its level, or, if it comes
        from an object, to the metaclass of its superclass. */
    ghost predicate Placed(k: RClass, p: RClass)
      reads this, classes
    {
      && p in classes && p.klass in classes && p.level < |shape.tower| && k in shape.sup
      && (p.klass == shape.tower[p.level] || (p.odd && BorrowedTwice(k.level, shape.sup[k], p.klass)))
    }

    ghost predicate BorrowedTwice(l: nat, s: RClass?, c: RClass?)
      reads this, classes
    {
      && s != null && s.level == l && s in classes && HasMetaclass(s) && s.klass in classes && s.klass.level == l + 1
      && HasMetaclass(s.klass) && c == s.klass.klass
    }

    /** `HAVE_METACLASS_P`. */
    predicate HasMetaclass(k: RClass)
      reads k
    {
      k.klass != null && k.klass.attached == k
    }

    lemma OwnHere(k: RClass)
      requires k in classes
      ensures k in Snap() && Snap()[k] == Node(k.klass, k.super) && Own(Snap(), k) == HasMetaclass(k)
    {}

    lemma Here(k: RClass)
      ensures k in Snap() <==> k in classes
    {}

    lemma BorrowsHere(l: nat, s: RClass?, c: RClass?)
      requires Borrows(Snap(), l, s, c)
      ensures s != null && s.level == l && s in classes && HasMetaclass(s) && c == s.klass && Own(Snap(), s)
    {}

    /** The loop that skips include classes. */
    method RealSuper(k: RClass, ghost u: set<RClass>) returns (s: RClass?)
      requires Holds(u) && k in classes
      ensures k in shape.sup && s == shape.sup[k]
    {
      hide Tower, Attached, Belongs, Mirrors;
      ghost var m: Nodes := Snap();
      s := k.super;
      assert Chain(m, shape, k);
      ghost var x: RClass := k;
      while s != null && s.iclass
        invariant x in m && x.super == s && shape.sup[x] == shape.sup[k] && (x == k || x.iclass)
        decreases x.level, shape.rank[x]
      {
        assert Chain(m, shape, x);
        x := s;
        assert Chain(m, shape, x);
        s := s.super;
      }
      assert Chain(m, shape, x);
    }

    /** Only what Extends allows changed. */
    twostate predicate Kept(u: set<RClass>, n: nat)
      reads this, classes
    {
      old(classes) <= classes && fresh(classes - old(classes)) && Extends(old(Snap()), old(shape), Snap(), shape, u, n)
    }

    //--------------------------------------------------------------------------
    // The steps of make_metaclass

    /** The metaclass is made and becomes the class of k. */
    method NewMetaclass(k: RClass, self: bool) returns (p: RClass)
      requires k in classes
      modifies this`classes, k`klass
      ensures fresh(p) && p !in old(classes) && classes == old(classes) + {p}
      ensures p.attached == k && p.level == k.level + 1 && p.odd == k.odd && !p.iclass && !p.ofObject
      ensures k.klass == p && p.klass == if self then p else cls
      ensures k in old(Snap()) && p !in old(Snap()) && Snap() == Begun(old(Snap()), k, p, if self then p else cls)
    {
      ghost var m: Nodes := Snap();
      p := new RClass(false, k, false, k.level + 1, k.odd, cls, null);
      k.klass := p;
      if self { p.klass := p; }
      classes := classes + {p};
      BegunNode(m, k, p, p.klass);
      hide Begun;
      assert Snap() == Begun(m, k, p, p.klass);
    }

    method Start(k: RClass, ghost u: set<RClass>) returns (p: RClass)
      requires Ready(k, u) && !HasMetaclass(k) && k.klass != k
      modifies this, k`klass
      ensures Holds(u + {p}) && fresh(p) && p.attached == k && p !in shape.tower && p.level == k.level + 1 && !p.iclass
      ensures classes == old(classes) + {p}
      ensures k.klass == p && p.klass == cls && p.odd == k.odd && Kept(u, k.level) && p in shape.sup && k in shape.sup
      ensures k.level < |shape.tower|
      ensures old(k.klass) == shape.tower[k.level] || (k.odd && Borrows(Snap(), k.level, shape.sup[k], old(k.klass)))
      ensures Lacking(Snap(), k.level) == old(Lacking(Snap(), k.level)) - {k}
      ensures old(k in Lacking(Snap(), k.level))
    {
      hide Inv, Snap, Begun, Extends, Lacking, Own, Borrows;
      ghost var m: Nodes, g := Snap(), shape;
      OwnHere(k);
      NotInTower(m, g, u, k);
      p := NewMetaclass(k, false);
      Begin(m, g, u, k, p, cls);
      BegunExtends(m, g, u, k, p, cls, g.tower);
      if k.odd { BegunBorrows(m, g, k, p, cls, g.tower); }
      shape := BegunShape(g, k, p, g.tower);
    }

    /** For the topmost metaclass of Class, or Class itself, which is its own class. */
    method StartTop(k: RClass, ghost u: set<RClass>) returns (p: RClass)
      requires Ready(k, u) && !HasMetaclass(k) && k.klass == k
      modifies this, k`klass
      ensures Holds(u + {p}) && p in classes && fresh(p) && p.attached == k && p.level == k.level + 1 && !p.iclass
      ensures k.klass == p && p.odd == k.odd && Kept(u, k.level) && Placed(k, p)
      ensures Lacking(Snap(), k.level) == old(Lacking(Snap(), k.level)) - {k}
      ensures old(k in Lacking(Snap(), k.level))
    {
      hide Inv, Snap, Begun, Extends, Lacking, Own, Borrows, BorrowedTwice;
      ghost var m: Nodes, g := Snap(), shape;
      OwnHere(k);
      NotInTower(m, g, u, k);
      TowerLevel(m, g, u, |g.tower| - 1);
      p := NewMetaclass(k, true);
      BeginTop(m, g, u, k, p);
      BegunExtends(m, g, u, k, p, p, g.tower + [p]);
      shape := BegunShape(g, k, p, g.tower + [p]);
    }

    method GiveClass(p: RClass, c: RClass, ghost u: set<RClass>)
      requires Holds(u) && p in u && p !in shape.tower && !HasMetaclass(p)
      modifies p`klass
      ensures Holds(u) && p.klass == c && Kept(u - {p}, p.level - 1)
    {
      hide Inv;
      Unfinished(Snap(), shape, u, p);
      ghost var m: Nodes := Snap();
      OwnHere(p);
      SetClass(m, shape, u, p, c);
      p.klass := c;
      assert Snap() == m[p := Node(c, null)];
    }

    method GiveSuper(p: RClass, s: RClass, ghost u: set<RClass>)
      requires Holds(u) && p in u && p in classes && p.klass in classes && p.level < |shape.tower|
               && p.attached in shape.sup
      requires p.klass == shape.tower[p.level] || (p.odd && s in classes && s.level == p.level && HasMetaclass(s)
                                                   && p.klass == s.klass)
      requires shape.sup[p.attached] == null ==> p.level == 1 && s == cls
      requires shape.sup[p.attached] != null ==>
        shape.sup[p.attached] in classes && HasMetaclass(shape.sup[p.attached]) && shape.sup[p.attached] !in u
        && s == shape.sup[p.attached].klass
      modifies this`shape, p`super
      ensures Holds(u - {p}) && p.super == s && p.klass == old(p.klass)
      ensures Snap() == old(Snap())[p := Node(p.klass, s)] && shape == old(shape).(sup := old(shape).sup[p := s])
    {
      hide Inv;
      Unfinished(Snap(), shape, u, p);
      ghost var m: Nodes := Snap();
      if shape.sup[p.attached] != null { OwnHere(shape.sup[p.attached]); }
      if s in classes { OwnHere(s); }
      Finish(m, shape, u, p, s);
      p.super := s;
      shape := shape.(sup := shape.sup[p := s]);
      assert Snap() == m[p := Node(p.klass, s)];
    }

    /** `ENSURE_EIGENCLASS`. */
    method EnsureEigenclass(k: RClass, ghost n: nat, ghost u: set<RClass>) returns (p: RClass)
      requires Holds(u) && k in classes && !k.iclass && k !in u && Above(u, n)
      requires HasMetaclass(k) || (k.level == n && (k.odd ==> u == {}))
      modifies this, classes
      ensures Holds(u) && HasMetaclass(k) && p == k.klass && Kept(u, n) && p in classes
      decreases k.odd, Lacking(Snap(), n), 2
    {
      hide Inv, Extends;
      if HasMetaclass(k) {
        Unchanged(Snap(), shape, u, n);
        OwnHere(k);
        OwnMetaclass(Snap(), shape, u, k);
        p := k.klass;
      } else {
        p := MakeMetaclass(k, u);
      }
    }

    /** The class of the new metaclass: the metaclass of the class k belonged to. */
    method ClassFrom(p: RClass, tmp: RClass, ghost n: nat, ghost u: set<RClass>)
      requires Holds(u + {p}) && p !in u && p in classes && p !in shape.tower && p.klass == cls && p.level == n + 1
               && Above(u, n)
      requires tmp in classes && !tmp.iclass && !tmp.odd && tmp !in u + {p} && n < |shape.tower|
      requires tmp == shape.tower[n] || (tmp.level == n + 1 && p.odd && u == {})
      modifies this, classes
      ensures Holds(u + {p}) && HasMetaclass(tmp) && p.klass == tmp.klass && p.klass in classes && Kept(u, n)
      ensures tmp == old(shape.tower[n]) ==> n + 1 < |shape.tower| && p.klass == shape.tower[n + 1]
      decreases p.odd, Lacking(Snap(), n), 3
    {
      hide Inv, Extends, Lacking;
      ghost var m: Nodes, g, l: nat := Snap(), shape, if tmp == shape.tower[n] then n else n + 1;
      TowerLevel(m, g, u + {p}, 0);
      TowerLevel(m, g, u + {p}, n);
      var e := EnsureEigenclass(tmp, l, u + {p});
      ghost var m1: Nodes, g1 := Snap(), shape;
      OwnHere(tmp);
      Ensured(m, g, m1, g1, u + {p}, l, p);
      if l == n { EnsuredTower(m, g, m1, g1, u + {p}, n); }
      GiveClass(p, e, u + {p});
      ExtendsLower(m, g, m1, g1, u + {p}, l, n);
      ExtendsLess(m, g, m1, g1, u + {p}, u, n);
      assert u + {p} - {p} == u;
      ExtendsTwice(m, g, m1, g1, Snap(), shape, u, u, n);
    }

    /** The metaclass, with the class it belongs to. */
    method StartClass(k: RClass, ghost u: set<RClass>) returns (p: RClass)
      requires Ready(k, u) && !HasMetaclass(k)
      modifies this, classes
      ensures Holds(u + {p}) && p in classes && fresh(p) && p.attached == k && p.level == k.level + 1 && !p.iclass
              && p.odd == k.odd
      ensures k.klass == p && Kept(u, k.level) && Placed(k, p)
      ensures Lacking(Snap(), k.level) < old(Lacking(Snap(), k.level))
      decreases k.odd, Lacking(Snap(), k.level), 0
    {
      hide Inv, Extends, Lacking;
      if k.klass == k {
        p := StartTop(k, u);
      } else {
        p := StartBelow(k, u);
      }
    }

    method StartBelow(k: RClass, ghost u: set<RClass>) returns (p: RClass)
      requires Ready(k, u) && !HasMetaclass(k) && k.klass != k
      modifies this, classes
      ensures Holds(u + {p}) && p in classes && fresh(p) && p.attached == k && p.level == k.level + 1 && !p.iclass
              && p.odd == k.odd
      ensures k.klass == p && Kept(u, k.level) && Placed(k, p)
      ensures Lacking(Snap(), k.level) < old(Lacking(Snap(), k.level))
      decreases k.odd, Lacking(Snap(), k.level), 0, 0
    {
      hide Inv, Extends, Lacking, Snap, Own, Borrows;
      ghost var n, m: Nodes, g := k.level, Snap(), shape;
      var tmp := k.klass;
      p := Start(k, u);
      ghost var m1: Nodes, g1 := Snap(), shape;
      ghost var s, borrowed := shape.sup[k], tmp != shape.tower[n];
      OwnHere(k);
      TowerLevel(m1, g1, u + {p}, n);
      if borrowed {
        BorrowsHere(n, s, tmp);
        OwnHere(s);
        Borrowed(m1, g1, u + {p}, k);
      }
      Here(tmp);
      ClassFrom(p, tmp, n, u);
      assert fresh(classes - old(classes));
      ExtendsTwice(m, g, m1, g1, Snap(), shape, u, u, n);
      ExtendsAt(m1, g1, Snap(), shape, u, n, k);
      OwnHere(k);
      FewerLacking(m1, g1, Snap(), shape, u, n);
      if borrowed {
        ExtendsAt(m1, g1, Snap(), shape, u, n, s);
        Here(s);
        OwnHere(s);
        OwnHere(tmp);
        OwnKnown(Snap(), shape, u + {p}, tmp);
      }
    }

    /** `make_metaclass`. */
    method MakeMetaclass(k: RClass, ghost u: set<RClass>) returns (p: RClass)
      requires Ready(k, u) && !HasMetaclass(k)
      modifies this, classes
      ensures Holds(u) && HasMetaclass(k) && p == k.klass && Kept(u, k.level) && p in classes
      decreases k.odd, Lacking(Snap(), k.level), 1
    {
      hide Inv, Extends, Lacking;
      ghost var n, m: Nodes, g := k.level, Snap(), shape;
      p := StartClass(k, u);
      SuperFrom(k, p, m, g, n, u);
    }

    /** The superclass of the new metaclass: the metaclass of the superclass. */
    method SuperFrom(k: RClass, p: RClass, ghost m: Nodes, ghost g: Shape, ghost n: nat, ghost u: set<RClass>)
      requires Holds(u + {p}) && k in classes && !k.iclass && k !in u && k.klass == p && p.attached == k && p !in u
               && k.level == n
      requires Above(u, n) && p.level == n + 1 && Placed(k, p)
      requires Extends(m, g, Snap(), shape, u, n) && p !in m
      modifies this, classes
      ensures Holds(u) && HasMetaclass(k) && p == k.klass && p in classes
      ensures old(classes) <= classes && fresh(classes - old(classes)) && Extends(m, g, Snap(), shape, u, n)
      decreases p.odd, Lacking(Snap(), n), 3
    {
      hide Inv, Extends, Lacking;
      ghost var m1: Nodes, g1 := Snap(), shape;
      SuperLevel(m1, g1, u + {p}, k);
      var s := RealSuper(k, u + {p});
      assert u + {p} - {p} == u;
      if s == null {
        GiveSuper(p, cls, u + {p});
        ExtendsExcept(m, g, m1, g1, Snap(), shape, u, n, p);
      } else {
        OwnHere(s);
        var e := EnsureEigenclass(s, n, u + {p});
        assert fresh(classes - old(classes));
        ghost var m2: Nodes, g2 := Snap(), shape;
        ExtendsTwice(m, g, m1, g1, m2, g2, u, u + {p}, n);
        ExtendsAt(m1, g1, m2, g2, u + {p}, n, k);
        ExtendsAt(m1, g1, m2, g2, u + {p}, n, p);
        if p.klass != g1.tower[p.level] {
          ExtendsAt(m1, g1, m2, g2, u + {p}, n, s);
          ExtendsAt(m1, g1, m2, g2, u + {p}, n, m1[s].klass);
        }
        GiveSuper(p, e, u + {p});
        ExtendsExcept(m, g, m2, g2, Snap(), shape, u, n, p);
      }
    }

    //--------------------------------------------------------------------------
    // What Ruby code can do

    /** `rb_class_boot`: a class below s, or the singleton class of an object of class s. */
    method ClassBoot(s: RClass, ofObject: bool) returns (c: RClass)
      requires Holds({}) && s in classes && !s.iclass && s.attached == null && !s.ofObject
      modifies this
      ensures Holds({}) && fresh(c) && classes == old(classes) + {c} && c.super == s && !HasMetaclass(c)
      ensures !c.iclass && c.attached == null && c.ofObject == ofObject && c.level == 0 && c.odd == ofObject
      ensures c.klass == if ofObject then s.klass else cls
    {
      hide Inv;
      ghost var m: Nodes, g := Snap(), shape;
      PlainLevel(m, g, s);
      RankKnown(m, g, s);
      c := new RClass(false, null, ofObject, 0, ofObject, if ofObject then s.klass else cls, s);
      Defined(m, g, c, c.klass, s);
      TowerLevel(m, g, {}, 0);
      OwnKnown(m, g, {}, s);
      classes := classes + {c};
      shape := NewShape(g, c, s);
      assert Snap() == m[c := Node(c.klass, s)];
    }

    /** `make_singleton_class` of an object of class s: its class is the class of s, whether that is
        a metaclass of its own or not. */
    method MakeSingletonClass(s: RClass) returns (c: RClass)
      requires Holds({}) && s in classes && !s.iclass && s.attached == null && !s.ofObject
      modifies this
      ensures Holds({}) && fresh(c) && classes == old(classes) + {c} && !c.iclass && !HasMetaclass(c)
      ensures c.ofObject && c.super == s && c.klass == s.klass
    {
      hide Inv;
      c := ClassBoot(s, true);
    }

    /** `rb_define_class_id`; null stands for a TypeError. */
    method DefineClass(super: RClass?) returns (c: RClass?)
      requires Holds({}) && (super != null ==> super in classes && !super.iclass)
      requires object_ in classes && Plain(object_)
      modifies this, classes
      ensures Holds({}) && old(classes) <= classes && fresh(classes - old(classes))
      ensures c == null <==> super != null && (super.attached != null || super.ofObject || super == cls)
      ensures c != null ==> fresh(c) && c in classes && !c.iclass && HasMetaclass(c)
                            && c.super == if super == null then object_ else super
    {
      hide Inv, Extends, Lacking;
      var s := if super == null then object_ else super;
      if s.attached != null || s.ofObject { return null; }
      if super != null && s == cls { return null; }
      var k := ClassBoot(s, false);
      ghost var m: Nodes, g := Snap(), shape;
      var p := MakeMetaclass(k, {});
      ExtendsAt(m, g, Snap(), shape, {}, 0, k);
      c := k;
    }

    /** `rb_singleton_class` of a class: the class that is handed out has a metaclass too. */
    method SingletonClass(k: RClass) returns (p: RClass)
      requires Holds({}) && k in classes && !k.iclass
      modifies this, classes
      ensures Holds({}) && old(classes) <= classes && fresh(classes - old(classes))
      ensures HasMetaclass(k) && p == k.klass && HasMetaclass(p) && p in classes && !p.iclass
      ensures old(HasMetaclass(k)) ==> p == old(k.klass)
    {
      hide Inv, Extends, Lacking;
      ghost var m: Nodes, g := Snap(), shape;
      OwnHere(k);
      p := EnsureEigenclass(k, k.level, {});
      ghost var m1: Nodes, g1 := Snap(), shape;
      ExtendsAt(m, g, m1, g1, {}, k.level, k);
      OwnHere(k);
      OwnMetaclass(m1, g1, {}, k);
      var q := EnsureEigenclass(p, p.level, {});
      ExtendsAt(m1, g1, Snap(), shape, {}, p.level, k);
    }

    /** The step of `include_modules_at` that puts a module behind a class or an include
        class. */
    method IncludeAfter(c: RClass, module_: RClass) returns (i: RClass)
      requires Holds({}) && c in classes
      modifies this, c`super
      ensures Holds({}) && fresh(i) && classes == old(classes) + {i} && i.iclass
      ensures c.super == i && i.super == old(c.super) && i.klass == module_
      ensures forall x :: x in old(shape).sup && x in shape.sup && x != i ==> shape.sup[x] == old(shape).sup[x]
    {
      hide Inv, Inserted, InsertedShape;
      ghost var m: Nodes, g := Snap(), shape;
      RankKnown(m, g, c);
      i := new RClass(true, null, false, c.level, false, module_, c.super);
      ghost var h := InsertShape(g, c, i);
      Insert(m, g, h, c, i, module_);
      c.super := i;
      classes := classes + {i};
      shape := h;
      InsertedNodes(m, c, i, module_);
      assert Snap() == Inserted(m, c, i, module_);
    }
  }

  /** The theorem, in any heap the operations can reach: for a class with a metaclass of its
      own, the superclass of the metaclass is the metaclass of the superclass; include classes
      are skipped on both sides.  Class stands in where there is no superclass. */
  lemma CommutingSquare(w: World, k: RClass, s: RClass?, i: nat, t: RClass?, j: nat)
    requires w.Holds({}) && k in w.classes && !k.iclass && w.HasMetaclass(k)
    requires SkipsTo(w.Snap(), k, s, i) && SkipsTo(w.Snap(), k.klass, t, j)
    ensures s == null ==> t == w.cls
    ensures s != null ==> s in w.classes && w.HasMetaclass(s) && t == s.klass
  {
    hide Inv;
    w.OwnHere(k);
    Square(w.Snap(), w.shape, k, s, i, t, j);
    if s != null { w.OwnHere(s); }
  }

  /** Both sides of the square exist. */
  lemma SquareExists(w: World, k: RClass) returns (s: RClass?, i: nat, t: RClass?, j: nat)
    requires w.Holds({}) && k in w.classes && !k.iclass && w.HasMetaclass(k)
    ensures SkipsTo(w.Snap(), k, s, i) && SkipsTo(w.Snap(), k.klass, t, j)
  {
    hide Inv, SkipsTo;
    w.OwnHere(k);
    OwnMetaclass(w.Snap(), w.shape, {}, k);
    i := HasRealSuperclass(w.Snap(), w.shape, {}, k);
    j := HasRealSuperclass(w.Snap(), w.shape, {}, k.klass);
    s, t := w.shape.sup[k], w.shape.sup[k.klass];
  }

  /** A program names the classes it was handed by number. */
  datatype Op =
    | Define(super: nat)
    | DefineUnderObject
    | SingletonOf(k: nat)
    | SingletonOfObject(k: nat)
    | IncludeInto(k: nat, behind: nat)

  /** What a program knows of the classes it holds. */
  ghost predicate Program(w: World, vars: seq<RClass>)
    reads w, w.classes
  {
    w.Holds({}) && w.object_ in w.classes && Plain(w.object_) && forall x :: x in vars ==> x in w.classes && !x.iclass
  }

  /** Classes one can have instances of that are no classes themselves. */
  predicate Instances(w: World, c: RClass) { c.attached == null && !c.ofObject && c != w.cls }

  /** Up to n include classes behind k. */
  ghost function InsertionPoint(m: Nodes, k: RClass, n: nat): RClass
  {
    if n == 0 || k !in m || m[k].super == null || !m[k].super.iclass then k else InsertionPoint(m, m[k].super, n - 1)
  }

  /** What an operation does: a new class has a metaclass and the superclass asked for, a
      singleton class is the class of its class and has a metaclass too, the singleton class of
      an object stands before the object's class, and an include class is linked in at its
      place and nowhere else.  A class that cannot be inherited from raises an exception. */
  twostate predicate Effect(w: World, vars: seq<RClass>, op: Op, new vars': seq<RClass>)
    reads w, w.classes, vars, vars'
  {
    match op
    case Define(i) =>
      if i < |vars| && Instances(w, vars[i])
      then |vars'| == |vars| + 1 && vars' == vars + [vars'[|vars|]] && Defines(w, vars'[|vars|], vars[i])
           && fresh(vars'[|vars|])
      else vars' == vars
    case DefineUnderObject =>
      |vars'| == |vars| + 1 && vars' == vars + [vars'[|vars|]] && Defines(w, vars'[|vars|], w.object_)
      && fresh(vars'[|vars|])
    case SingletonOf(i) =>
      if i < |vars| then vars' == vars + [vars[i].klass] && w.HasMetaclass(vars[i]) && w.HasMetaclass(vars[i].klass)
      else vars' == vars
    case SingletonOfObject(i) =>
      if i < |vars| && Instances(w, vars[i])
      then |vars'| == |vars| + 1 && vars' == vars + [vars'[|vars|]] && Fronts(vars'[|vars|], vars[i])
           && fresh(vars'[|vars|])
      else vars' == vars
    case IncludeInto(i, behind) =>
      vars' == vars && (i < |vars| ==> Linked(old(w.Snap()), w.Snap(), InsertionPoint(old(w.Snap()), vars[i], behind)))
  }

  ghost predicate Defines(w: World, c: RClass, super: RClass)
    reads w, c
  {
    c in w.classes && w.HasMetaclass(c) && c.super == super
  }

  ghost predicate Fronts(c: RClass, super: RClass)
    reads c, super
  {
    c.ofObject && c.super == super && c.klass == super.klass
  }

  /** One new include class stands behind c, and all else is as before. */
  ghost predicate Linked(m: Nodes, n: Nodes, c: RClass)
  {
    && c in m && c in n && n[c].klass == m[c].klass
    && n[c].super != null && n[c].super.iclass && n[c].super !in m && n[c].super in n
       && n[n[c].super].super == m[c].super
    && n.Keys == m.Keys + {n[c].super} && (forall x :: x in m && x != c ==> n[x] == m[x])
  }

  method Execute(w: World, vars: seq<RClass>, op: Op) returns (vars': seq<RClass>)
    requires Program(w, vars)
    modifies w, w.classes
    ensures Program(w, vars') && old(w.classes) <= w.classes && fresh(w.classes - old(w.classes))
    ensures Effect(w, vars, op, vars')
  {
    hide Inv;
    vars' := vars;
    match op {
      case Define(i) =>
        if i < |vars| {
          var c := w.DefineClass(vars[i]);
          if c != null { vars' := vars + [c]; }
        }
      case DefineUnderObject =>
        var c := w.DefineClass(null);
        if c != null { vars' := vars + [c]; }
      case SingletonOf(i) =>
        if i < |vars| {
          var p := w.SingletonClass(vars[i]);
          vars' := vars + [p];
        }
      case SingletonOfObject(i) =>
        if i < |vars| && Instances(w, vars[i]) {
          var c := w.MakeSingletonClass(vars[i]);
          vars' := vars + [c];
        }
      case IncludeInto(i, behind) =>
        if i < |vars| { Include(w, vars[i], behind); }
    }
  }

  method Include(w: World, k: RClass, n: nat)
    requires w.Holds({}) && k in w.classes
    modifies w, w.classes
    ensures w.Holds({}) && old(w.classes) <= w.classes && fresh(w.classes - old(w.classes))
    ensures Linked(old(w.Snap()), w.Snap(), InsertionPoint(old(w.Snap()), k, n))
  {
    hide Inv, InsertionPoint;
    var c := Behind(w, k, n);
    var module_ := new RClass(false, null, false, 0, false, null, null);
    var i := w.IncludeAfter(c, module_);
  }

  method Behind(w: World, k: RClass, n: nat) returns (c: RClass)
    requires w.Holds({}) && k in w.classes
    ensures c in w.classes && c == InsertionPoint(w.Snap(), k, n)
  {
    hide Tower, Attached, Belongs, Mirrors;
    ghost var m: Nodes := w.Snap();
    c := k;
    for j := 0 to n
      invariant c in w.classes && InsertionPoint(m, c, n - j) == InsertionPoint(m, k, n)
    {
      assert Chain(m, w.shape, c);
      if c.super != null && c.super.iclass { c := c.super; }
    }
  }

  /** From the boot state, any operations in any order end, and the invariant holds. */
  method Run(ops: seq<Op>) returns (w: World, vars: seq<RClass>)
    ensures Program(w, vars)
  {
    hide Inv;
    w := new World();
    vars := [w.basicObject, w.object_, w.module_, w.cls];
    for k := 0 to |ops|
      invariant fresh(w) && fresh(w.classes) && Program(w, vars)
    {
      vars := Execute(w, vars, ops[k]);
    }
  }
}
