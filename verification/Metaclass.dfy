/**
 * The metaclass tower of class.c.
 *
 * A class need not have a metaclass of its own.  One that has none belongs to the metaclass
 * of Class at its level: an ordinary class to Class itself, a metaclass to the metaclass of
 * Class, and so on.  The singleton class of an object that is no class belongs to the
 * metaclass of its superclass, and so do the metaclasses above it.  Giving a class its
 * metaclass gives one to its superclass, and to the class it belonged to, first; the pointers
 * are set in the middle of that recursion.
 */
module Metaclass {
  /** A class, or an include class that stands for a module in a chain of superclasses. */
  class RClass {
    const iclass: bool
      /** The class a metaclass is attached to; null if it is none. */
    const attached: RClass?
    /** The singleton class of an object that is no class. */
    const ofObject: bool
    /** How often "metaclass of" was applied, and whether to the singleton class of such an
        object. */
    ghost const level: nat
    ghost const odd: bool
    var klass: RClass?
    var super: RClass?

    constructor (i: bool, a: RClass?, o: bool, ghost l: nat, ghost d: bool, k: RClass?, s: RClass?)
      ensures iclass == i && attached == a && ofObject == o && level == l && odd == d && klass == k && super == s
    {
      iclass, attached, ofObject, level, odd, klass, super := i, a, o, l, d, k, s;
    }
  }

  datatype Node = Node(klass: RClass?, super: RClass?)

  type Nodes = map<RClass, Node>

  /** What is known of the classes besides their pointers: the first superclass that is not
      an include class, a rank that falls along superclass pointers, and the metaclasses of
      Class. */
  datatype Shape = Shape(sup: map<RClass, RClass?>, rank: map<RClass, nat>, tower: seq<RClass>)

  /** `HAVE_METACLASS_P`. */
  ghost predicate Own(m: Nodes, k: RClass)
  {
    k in m && m[k].klass != null && m[k].klass.attached == k
  }

  ghost predicate Below(g: Shape, x: RClass, y: RClass)
    requires x in g.rank && y in g.rank
  {
    x.level < y.level || (x.level == y.level && g.rank[x] < g.rank[y])
  }

  /** Superclass pointers do not run in circles, and `sup` skips the include classes. */
  ghost predicate Chain(m: Nodes, g: Shape, x: RClass)
    requires x in m
  {
    && x in g.sup && x in g.rank && 1 <= g.rank[x]
    && (m[x].super == null ==> g.sup[x] == null)
    && (m[x].super != null ==>
          && m[x].super in m && m[x].super in g.sup && m[x].super in g.rank && Below(g, m[x].super, x)
          && g.sup[x] == if m[x].super.iclass then g.sup[m[x].super] else m[x].super)
    && (g.sup[x] != null ==>
          && g.sup[x] in m && g.sup[x] in g.rank && !g.sup[x].iclass && !g.sup[x].odd && Below(g, g.sup[x], x)
          && (g.sup[x].level == x.level || (0 < x.level <= |g.tower| && g.sup[x] == g.tower[x.level - 1])))
  }

  /** A singleton class is the class of what it is attached to. */
  ghost predicate Attached(m: Nodes, g: Shape, x: RClass)
    requires x in m
  {
    && (x.attached == null <==> x.level == 0) && (x.attached == null ==> x.odd == x.ofObject)
    && (x.attached != null ==>
          && !x.ofObject && x.odd == x.attached.odd && x.attached in m && !x.attached.iclass
             && x.attached.level + 1 == x.level
          && m[x.attached].klass == x && x in g.rank && x.attached in g.rank && g.rank[x] == g.rank[x.attached])
  }

  /** A class has its own metaclass or belongs to the metaclass of Class at its level; one that
      comes from an object may also belong to the metaclass of its superclass. */
  ghost predicate Belongs(m: Nodes, g: Shape, x: RClass)
    requires x in m
  {
    && x.level < |g.tower| && m[x].klass != null && m[x].klass in m
    && (Own(m, x) || m[x].klass == g.tower[x.level]
        || (x.odd && x in g.sup && Borrows(m, x.level, g.sup[x], m[x].klass)))
  }

  /** A class is the own metaclass of a superclass at level l. */
  ghost predicate Borrows(m: Nodes, l: nat, s: RClass?, c: RClass?)
  {
    s != null && s.level == l && Own(m, s) && c == m[s].klass
  }

  /** The superclass of a metaclass is the metaclass of the superclass. */
  ghost predicate Mirrors(m: Nodes, g: Shape, x: RClass)
    requires x in m && x in g.sup && x.attached != null
  {
    && x.attached in g.sup && g.sup[x] != null && g.tower != []
    && (g.sup[x.attached] == null ==> g.sup[x] == g.tower[0])
    && (g.sup[x.attached] != null ==> Own(m, g.sup[x.attached]) && g.sup[x] == m[g.sup[x.attached]].klass)
  }

  ghost predicate Tower(m: Nodes, g: Shape)
  {
    && |g.tower| >= 1
    && (forall i :: 0 <= i < |g.tower| ==> g.tower[i] in m && !g.tower[i].iclass && !g.tower[i].odd
                                           && g.tower[i].level == i)
    && (forall i :: 0 <= i < |g.tower| ==> m[g.tower[i]].klass == g.tower[if i + 1 < |g.tower| then i + 1 else i])
    && (forall i :: 1 <= i < |g.tower| ==> g.tower[i].attached == g.tower[i - 1])
  }

  /** The invariant; the classes in `unfinished` are metaclasses whose pointers are not all
      set yet. */
  ghost predicate Inv(m: Nodes, g: Shape, unfinished: set<RClass>)
  {
    && Tower(m, g)
    && (forall x :: x in m ==> Chain(m, g, x) && (x.iclass ==> x.attached == null))
    && (forall x :: x in m && !x.iclass ==> Attached(m, g, x))
    && (forall x :: x in m && !x.iclass && x !in unfinished ==> Belongs(m, g, x))
    && (forall x :: x in m && !x.iclass && x !in unfinished && x.attached != null ==> Mirrors(m, g, x))
    && (forall x :: x in unfinished ==> x in m && !x.iclass && x.attached != null && m[x].super == null)
  }

  /** What every step keeps: the metaclasses there are, the ranks and the tower. */
  ghost predicate Carries(m: Nodes, g: Shape, n: Nodes, h: Shape)
  {
    && (forall x :: x in m ==> x in n && (Own(m, x) ==> n[x].klass == m[x].klass))
    && (forall x :: x in m && x in g.rank ==> x in h.rank && h.rank[x] == g.rank[x])
    && g.tower <= h.tower
  }

  lemma CarriedAttached(m: Nodes, g: Shape, n: Nodes, h: Shape, x: RClass)
    requires Carries(m, g, n, h) && x in m && Attached(m, g, x)
    ensures Attached(n, h, x)
  {}

  lemma CarriedBelongs(m: Nodes, g: Shape, n: Nodes, h: Shape, x: RClass)
    requires Carries(m, g, n, h) && x in m && Belongs(m, g, x)
    requires x in g.sup && x in h.sup && h.sup[x] == g.sup[x] && (n[x].klass == m[x].klass || Own(n, x))
             && n[x].klass in n
    ensures Belongs(n, h, x)
  {}

  lemma CarriedMirrors(m: Nodes, g: Shape, n: Nodes, h: Shape, x: RClass)
    requires Carries(m, g, n, h) && x in m && x in g.sup && x.attached != null && Mirrors(m, g, x)
    requires x in h.sup && h.sup[x] == g.sup[x] && x.attached in h.sup && h.sup[x.attached] == g.sup[x.attached]
    ensures Mirrors(n, h, x)
  {}

  /** A class whose superclass and class stay, or that got a metaclass. */
  lemma Carried(m: Nodes, g: Shape, n: Nodes, h: Shape, u: set<RClass>, x: RClass)
    requires Inv(m, g, u) && Carries(m, g, n, h) && x in m && !x.iclass && x !in u
    requires x in g.sup && x in h.sup && h.sup[x] == g.sup[x] && (n[x].klass == m[x].klass || Own(n, x))
             && (Own(n, x) ==> n[x].klass in n)
    requires x.attached != null ==> x.attached in g.sup && x.attached in h.sup && h.sup[x.attached] == g.sup[x.attached]
    ensures Belongs(n, h, x) && (x.attached != null ==> Mirrors(n, h, x))
  {
    assert m[x].klass in m by { assert Belongs(m, g, x); }
    hide Chain, Attached, Belongs, Mirrors, Tower;
    assert m[x].klass in n;
    CarriedBelongs(m, g, n, h, x);
    if x.attached != null { CarriedMirrors(m, g, n, h, x); }
  }

  /** One class gets another class or superclass; its metaclass, if it has one, stays. */
  lemma CarriesOne(m: Nodes, g: Shape, h: Shape, p: RClass, c: Node)
    requires p in m ==> Own(m, p) ==> c.klass == m[p].klass
    requires g.tower <= h.tower && forall x :: x in m && x in g.rank ==> x in h.rank && h.rank[x] == g.rank[x]
    ensures Carries(m, g, m[p := c], h)
  {}

  lemma Known(m: Nodes, g: Shape, u: set<RClass>, x: RClass)
    requires Inv(m, g, u) && x in m && !x.iclass
    ensures x in g.sup && x in g.rank && (x.attached != null ==>
                                            x.attached in m && x.attached in g.sup && m[x.attached].klass == x)
  {
    assert Chain(m, g, x) && Attached(m, g, x);
    if x.attached != null { assert Chain(m, g, x.attached); }
  }

  //----------------------------------------------------------------------------
  // The steps of make_metaclass

  /** The new metaclass p becomes the class of k; it has no superclass yet. */
  ghost function Begun(m: Nodes, k: RClass, p: RClass, c: RClass): Nodes
    requires k in m
  {
    m[p := Node(c, null)][k := Node(p, m[k].super)]
  }

  ghost function BegunShape(g: Shape, k: RClass, p: RClass, t: seq<RClass>): Shape
    requires k in g.rank
  {
    Shape(g.sup[p := null], g.rank[p := g.rank[k]], t)
  }

  lemma BegunNode(m: Nodes, k: RClass, p: RClass, c: RClass)
    requires k in m && p !in m
    ensures var n := Begun(m, k, p, c);
            && n.Keys == m.Keys + {p} && n[p] == Node(c, null) && n[k] == Node(p, m[k].super)
            && forall x :: x in m && x != k ==> n[x] == m[x]
  {}

  ghost predicate CanBegin(m: Nodes, g: Shape, u: set<RClass>, k: RClass, p: RClass)
  {
    && Inv(m, g, u) && k in m && !k.iclass && k !in u && !Own(m, k)
    && p !in m && !p.iclass && p.attached == k && p.level == k.level + 1 && p.odd == k.odd && !p.ofObject
  }

  lemma BeginChain(m: Nodes, g: Shape, u: set<RClass>, k: RClass, p: RClass, c: RClass, t: seq<RClass>, x: RClass)
    requires CanBegin(m, g, u, k, p) && g.tower <= t && k in g.rank && (x in m || x == p)
    ensures Chain(Begun(m, k, p, c), BegunShape(g, k, p, t), x)
  {
    assert Chain(m, g, k);
    if x != p { assert Chain(m, g, x); }
  }

  lemma BegunCarries(m: Nodes, g: Shape, k: RClass, p: RClass, c: RClass, t: seq<RClass>)
    requires k in m && !Own(m, k) && p !in m && k in g.rank && g.tower <= t
    ensures Carries(m, g, Begun(m, k, p, c), BegunShape(g, k, p, t))
  {}

  lemma BeginAttached(m: Nodes, g: Shape, u: set<RClass>, k: RClass, p: RClass, c: RClass, t: seq<RClass>, x: RClass)
    requires CanBegin(m, g, u, k, p) && g.tower <= t && k in g.rank && (x in m || x == p) && !x.iclass
    ensures Attached(Begun(m, k, p, c), BegunShape(g, k, p, t), x)
  {
    assert Attached(m, g, k);
    if x != p { assert Attached(m, g, x); }
  }

  lemma BeginBelongs(m: Nodes, g: Shape, u: set<RClass>, k: RClass, p: RClass, c: RClass, t: seq<RClass>, x: RClass)
    requires CanBegin(m, g, u, k, p) && g.tower <= t && k in g.rank && x in m && !x.iclass && x !in u
    ensures Belongs(Begun(m, k, p, c), BegunShape(g, k, p, t), x)
    ensures x.attached != null ==> x in g.sup && Mirrors(Begun(m, k, p, c), BegunShape(g, k, p, t), x)
  {
    Known(m, g, u, x);
    OwnKnown(m, g, u, x);
    hide Inv, Belongs, Mirrors;
    BegunCarries(m, g, k, p, c, t);
    hide Carries;
    Carried(m, g, Begun(m, k, p, c), BegunShape(g, k, p, t), u, x);
  }

  /** A class that has no metaclass is the top of the tower or no metaclass of Class. */
  lemma NotInTower(m: Nodes, g: Shape, u: set<RClass>, k: RClass)
    requires Inv(m, g, u) && k in m && !k.iclass && k !in u && !Own(m, k)
    ensures k.level < |g.tower| && k in g.sup
    ensures m[k].klass == g.tower[k.level] || (k.odd && Borrows(m, k.level, g.sup[k], m[k].klass))
    ensures m[k].klass == k <==> k == g.tower[|g.tower| - 1]
    ensures forall i :: 0 <= i < |g.tower| - 1 ==> g.tower[i] != k
  {
    assert Belongs(m, g, k) && Chain(m, g, k);
    if k.odd && Borrows(m, k.level, g.sup[k], m[k].klass) { assert Attached(m, g, m[k].klass); }
    forall i | 0 <= i < |g.tower| - 1
      ensures g.tower[i] != k
    {
      assert g.tower[i + 1].attached == g.tower[i];
    }
  }

  lemma BegunNodes(m: Nodes, g: Shape, u: set<RClass>, k: RClass, p: RClass, c: RClass)
    requires CanBegin(m, g, u, k, p)
    ensures var n := Begun(m, k, p, c);
            && n.Keys == m.Keys + {p} && (forall x :: x in m ==> n[x].super == m[x].super) && n[p].super == null
    ensures k in g.rank && (forall x :: x in u ==> x in m && !x.iclass && x.attached != null && m[x].super == null)
    ensures forall x :: x in m && x.iclass ==> x.attached == null
  {
    assert Chain(m, g, k);
    hide Chain, Attached, Belongs, Mirrors, Tower;
  }

  lemma TowerSame(m: Nodes, g: Shape, u: set<RClass>, k: RClass, p: RClass, c: RClass)
    requires CanBegin(m, g, u, k, p) && k in g.rank && m[k].klass != k
    ensures Tower(Begun(m, k, p, c), BegunShape(g, k, p, g.tower))
  {
    NotInTower(m, g, u, k);
    hide Chain, Attached, Belongs, Mirrors;
  }

  lemma TowerTop(m: Nodes, g: Shape, u: set<RClass>, k: RClass, p: RClass)
    requires CanBegin(m, g, u, k, p) && k in g.rank && m[k].klass == k
    ensures Tower(Begun(m, k, p, p), BegunShape(g, k, p, g.tower + [p]))
  {
    NotInTower(m, g, u, k);
    hide Chain, Attached, Belongs, Mirrors;
    var n, t := Begun(m, k, p, p), g.tower + [p];
    forall i | 0 <= i < |t|
      ensures t[i] in n && !t[i].iclass && !t[i].odd && t[i].level == i
              && n[t[i]].klass == t[if i + 1 < |t| then i + 1 else i]
      ensures 1 <= i ==> t[i].attached == t[i - 1]
    {
      if i < |g.tower| { assert m[g.tower[i]].klass == g.tower[if i + 1 < |g.tower| then i + 1 else i]; }
    }
  }

  lemma TowerKept(m: Nodes, g: Shape, n: Nodes, h: Shape)
    requires Tower(m, g) && h.tower == g.tower && forall x :: x in g.tower ==>
      x in m && x in n && n[x].klass == m[x].klass
    ensures Tower(n, h)
  {}

  /** The pointers of the others still fit, whether or not the tower grew. */
  lemma BegunInv(m: Nodes, g: Shape, u: set<RClass>, k: RClass, p: RClass, c: RClass, t: seq<RClass>)
    requires CanBegin(m, g, u, k, p) && k in g.rank && g.tower <= t
    requires Tower(Begun(m, k, p, c), BegunShape(g, k, p, t))
    ensures Inv(Begun(m, k, p, c), BegunShape(g, k, p, t), u + {p})
  {
    BegunNodes(m, g, u, k, p, c);
    hide Chain, Attached, Belongs, Mirrors, Tower, Begun, CanBegin;
    var n, h := Begun(m, k, p, c), BegunShape(g, k, p, t);
    assert p !in m && !p.iclass && p.attached != null by { Fresh(m, g, u, k, p); }
    forall x | x in n
      ensures Chain(n, h, x)
    {
      BeginChain(m, g, u, k, p, c, t, x);
    }
    forall x | x in n && !x.iclass
      ensures Attached(n, h, x)
    {
      BeginAttached(m, g, u, k, p, c, t, x);
    }
    forall x | x in n && !x.iclass && x !in u + {p}
      ensures Belongs(n, h, x) && (x.attached != null ==> x in h.sup && Mirrors(n, h, x))
    {
      BeginBelongs(m, g, u, k, p, c, t, x);
    }
  }

  lemma Fresh(m: Nodes, g: Shape, u: set<RClass>, k: RClass, p: RClass)
    requires CanBegin(m, g, u, k, p)
    ensures p !in m && !p.iclass && p.attached != null
  {}

  /** Below the top of the tower. */
  lemma Begin(m: Nodes, g: Shape, u: set<RClass>, k: RClass, p: RClass, c: RClass)
    requires CanBegin(m, g, u, k, p) && m[k].klass != k
    ensures k in g.rank && Inv(Begun(m, k, p, c), BegunShape(g, k, p, g.tower), u + {p})
  {
    hide Inv, Tower;
    BegunNodes(m, g, u, k, p, c);
    TowerSame(m, g, u, k, p, c);
    BegunInv(m, g, u, k, p, c, g.tower);
  }

  /** At the top, the new metaclass is the next floor. */
  lemma BeginTop(m: Nodes, g: Shape, u: set<RClass>, k: RClass, p: RClass)
    requires CanBegin(m, g, u, k, p) && m[k].klass == k
    ensures k in g.rank && Inv(Begun(m, k, p, p), BegunShape(g, k, p, g.tower + [p]), u + {p})
  {
    hide Inv, Tower;
    BegunNodes(m, g, u, k, p, p);
    TowerTop(m, g, u, k, p);
    BegunInv(m, g, u, k, p, p, g.tower + [p]);
  }

  /** The class of an unfinished metaclass is set. */
  lemma SetClass(m: Nodes, g: Shape, u: set<RClass>, p: RClass, c: RClass)
    requires Inv(m, g, u) && p in u && p !in g.tower && !Own(m, p)
    ensures Inv(m[p := Node(c, null)], g, u)
  {
    var n := m[p := Node(c, null)];
    hide Chain, Attached, Belongs, Mirrors;
    TowerKept(m, g, n, g);
    hide Tower;
    forall x | x in n
      ensures Chain(n, g, x)
    {
      SetClassChain(m, g, p, c, x);
    }
    forall x | x in n && !x.iclass
      ensures Attached(n, g, x) && (x !in u ==> Belongs(n, g, x)
                                                && (x.attached != null ==> x in g.sup && Mirrors(n, g, x)))
    {
      SetClassClass(m, g, u, p, c, x);
    }
  }

  lemma SetClassChain(m: Nodes, g: Shape, p: RClass, c: RClass, x: RClass)
    requires p in m && m[p].super == null && x in m && Chain(m, g, x)
    ensures Chain(m[p := Node(c, null)], g, x)
  {}

  lemma SetClassClass(m: Nodes, g: Shape, u: set<RClass>, p: RClass, c: RClass, x: RClass)
    requires Inv(m, g, u) && p in u && p in m && !Own(m, p) && x in m && !x.iclass
    ensures var n := m[p := Node(c, null)];
            Attached(n, g, x) && (x !in u ==> Belongs(n, g, x)
                                              && (x.attached != null ==> x in g.sup && Mirrors(n, g, x)))
  {
    Known(m, g, u, x);
    assert Attached(m, g, x);
    hide Chain, Attached, Belongs, Mirrors, Tower;
    var n := m[p := Node(c, null)];
    CarriesOne(m, g, g, p, Node(c, null));
    hide Carries;
    CarriedAttached(m, g, n, g, x);
    if x !in u {
      OwnKnown(m, g, u, x);
      Carried(m, g, n, g, u, x);
    }
  }

  lemma OwnKnown(m: Nodes, g: Shape, u: set<RClass>, x: RClass)
    requires Inv(m, g, u) && x in m && !x.iclass && x !in u
    ensures m[x].klass in m && x.level < |g.tower|
  {
    assert Belongs(m, g, x);
  }

  /** The superclass of an unfinished metaclass is set, and it is finished. */
  lemma Finish(m: Nodes, g: Shape, u: set<RClass>, p: RClass, s: RClass)
    requires Inv(m, g, u) && p in u && p.level < |g.tower| && m[p].klass in m
    requires m[p].klass == g.tower[p.level] || (p.odd && Borrows(m, p.level, s, m[p].klass))
    requires p.attached in g.sup && (g.sup[p.attached] == null ==> p.level == 1)
    requires g.sup[p.attached] != null ==> Own(m, g.sup[p.attached]) && g.sup[p.attached] !in u
    requires s == if g.sup[p.attached] == null then g.tower[0] else m[g.sup[p.attached]].klass
    ensures Inv(m[p := Node(m[p].klass, s)], g.(sup := g.sup[p := s]), u - {p})
  {
    hide Chain, Attached, Belongs, Mirrors;
    TowerKept(m, g, m[p := Node(m[p].klass, s)], g.(sup := g.sup[p := s]));
    FinishChain(m, g, u, p, s);
    FinishSelf(m, g, p, s);
    hide Tower;
    FinishChains(m, g, u, p, s);
    FinishClasses(m, g, u, p, s);
  }

  lemma FinishChains(m: Nodes, g: Shape, u: set<RClass>, p: RClass, s: RClass)
    requires Inv(m, g, u) && p in u && p in m && Chain(m[p := Node(m[p].klass, s)], g.(sup := g.sup[p := s]), p)
    ensures var n, h := m[p := Node(m[p].klass, s)], g.(sup := g.sup[p := s]); forall x :: x in n ==> Chain(n, h, x)
  {
    hide Inv, Chain;
    var n, h := m[p := Node(m[p].klass, s)], g.(sup := g.sup[p := s]);
    forall x | x in n
      ensures Chain(n, h, x)
    {
      if x != p { FinishOthers(m, g, u, p, s, x); }
    }
  }

  lemma FinishClasses(m: Nodes, g: Shape, u: set<RClass>, p: RClass, s: RClass)
    requires Inv(m, g, u) && p in u && p in m
    requires var n, h := m[p := Node(m[p].klass, s)], g.(sup := g.sup[p := s]);
             Attached(n, h, p) && Belongs(n, h, p) && p.attached != null && Mirrors(n, h, p)
    ensures var n, h := m[p := Node(m[p].klass, s)], g.(sup := g.sup[p := s]);
            && (forall x :: x in n && !x.iclass ==> Attached(n, h, x))
            && (forall x :: x in n && !x.iclass && x !in u - {p} ==> Belongs(n, h, x))
            && (forall x :: x in n && !x.iclass && x !in u - {p} && x.attached != null ==>
                              x in h.sup && Mirrors(n, h, x))
  {
    hide Inv, Attached, Belongs, Mirrors;
    var n, h := m[p := Node(m[p].klass, s)], g.(sup := g.sup[p := s]);
    forall x | x in n && !x.iclass
      ensures Attached(n, h, x) && (x !in u - {p} ==>
                                      Belongs(n, h, x) && (x.attached != null ==> x in h.sup && Mirrors(n, h, x)))
    {
      if x != p { FinishClass(m, g, u, p, s, x); }
    }
  }

  lemma FinishOthers(m: Nodes, g: Shape, u: set<RClass>, p: RClass, s: RClass, x: RClass)
    requires Inv(m, g, u) && p in u && x in m && x != p
    ensures Chain(m[p := Node(m[p].klass, s)], g.(sup := g.sup[p := s]), x)
  {
    assert Chain(m, g, x);
  }

  lemma FinishClass(m: Nodes, g: Shape, u: set<RClass>, p: RClass, s: RClass, x: RClass)
    requires Inv(m, g, u) && p in u && x in m && !x.iclass && x != p
    ensures var n, h := m[p := Node(m[p].klass, s)], g.(sup := g.sup[p := s]);
            Attached(n, h, x) && (x !in u ==> Belongs(n, h, x)
                                              && (x.attached != null ==> x in h.sup && Mirrors(n, h, x)))
  {
    Known(m, g, u, x);
    var n, h := m[p := Node(m[p].klass, s)], g.(sup := g.sup[p := s]);
    assert Attached(m, g, x);
    hide Chain, Attached, Belongs, Mirrors, Tower;
    CarriesOne(m, g, h, p, n[p]);
    hide Carries;
    CarriedAttached(m, g, n, h, x);
    if x !in u {
      OwnKnown(m, g, u, x);
      Carried(m, g, n, h, u, x);
    }
  }

  /** The class itself: it belongs where it should, and its superclass is the right one. */
  lemma FinishSelf(m: Nodes, g: Shape, p: RClass, s: RClass)
    requires p in m && Attached(m, g, p) && p.attached != null && p.level < |g.tower| && m[p].klass in m
    requires m[p].klass == g.tower[p.level] || (p.odd && Borrows(m, p.level, s, m[p].klass))
    requires p.attached in g.sup && (g.sup[p.attached] != null ==> Own(m, g.sup[p.attached]))
    requires s == if g.sup[p.attached] == null then g.tower[0] else m[g.sup[p.attached]].klass
    ensures var n, h := m[p := Node(m[p].klass, s)], g.(sup := g.sup[p := s]);
            Attached(n, h, p) && Belongs(n, h, p) && Mirrors(n, h, p)
  {}

  lemma FinishChain(m: Nodes, g: Shape, u: set<RClass>, p: RClass, s: RClass)
    requires Inv(m, g, u) && p in u && p.level < |g.tower|
    requires p.attached in g.sup && (g.sup[p.attached] == null ==> p.level == 1)
    requires g.sup[p.attached] != null ==> Own(m, g.sup[p.attached]) && g.sup[p.attached] !in u
    requires s == if g.sup[p.attached] == null then g.tower[0] else m[g.sup[p.attached]].klass
    ensures Chain(m[p := Node(m[p].klass, s)], g.(sup := g.sup[p := s]), p)
  {
    var k := p.attached;
    assert Chain(m, g, p) && Attached(m, g, p) && Chain(m, g, k);
    if g.sup[k] == null {
      assert Chain(m, g, g.tower[0]);
    } else {
      var q := g.sup[k];
      assert Own(m, q) && s == m[q].klass;
      OwnMetaclass(m, g, u, q);
      assert Attached(m, g, s) && Chain(m, g, s);
      assert q.level == k.level ==> g.rank[q] < g.rank[k];
      assert q.level != k.level ==> q == g.tower[k.level - 1];
    }
  }

  /** A metaclass of its own is one floor above. */
  lemma OwnMetaclass(m: Nodes, g: Shape, u: set<RClass>, q: RClass)
    requires Inv(m, g, u) && q in m && !q.iclass && q !in u && Own(m, q)
    ensures m[q].klass in m && !m[q].klass.iclass && m[q].klass.level == q.level + 1 && m[q].klass.odd == q.odd
  {
    assert Belongs(m, g, q);
    assert Attached(m, g, m[q].klass);
  }

  //----------------------------------------------------------------------------
  // What making a metaclass leaves alone

  /** New classes are metaclasses above level n; of the old ones only those without a
      metaclass of their own, and not those that are being made, changed their class. */
  ghost predicate Extends(m: Nodes, g: Shape, m': Nodes, g': Shape, u: set<RClass>, n: nat)
  {
    && (forall x :: x in m ==> x in m' && m'[x].super == m[x].super)
    && (forall x :: x in m && (Own(m, x) || x in u) ==> m'[x].klass == m[x].klass)
    && (forall x :: x in m && x in g.sup ==> x in g'.sup && g'.sup[x] == g.sup[x])
    && (forall x :: x in m' && x !in m ==> n < x.level && !x.iclass)
    && g.tower <= g'.tower && (forall x :: x in m && x in g'.tower ==> x in g.tower)
  }

  lemma ExtendsTwice(m: Nodes, g: Shape, m1: Nodes, g1: Shape, m2: Nodes, g2: Shape, u: set<RClass>,
                     v: set<RClass>, n: nat)
    requires Extends(m, g, m1, g1, u, n) && Extends(m1, g1, m2, g2, v, n) && u <= v
    ensures Extends(m, g, m2, g2, u, n)
  {}

  lemma ExtendsLess(m: Nodes, g: Shape, m': Nodes, g': Shape, u: set<RClass>, v: set<RClass>, n: nat)
    requires Extends(m, g, m', g', u, n) && v <= u
    ensures Extends(m, g, m', g', v, n)
  {}

  /** The classes at a level that still lack a metaclass. */
  ghost function Lacking(m: Nodes, n: nat): set<RClass>
  {
    set x | x in m && !x.iclass && x.level == n && !Own(m, x)
  }

  lemma FewerLacking(m: Nodes, g: Shape, m': Nodes, g': Shape, u: set<RClass>, n: nat)
    requires Extends(m, g, m', g', u, n)
    ensures Lacking(m', n) <= Lacking(m, n)
  {}

  lemma Unfinished(m: Nodes, g: Shape, u: set<RClass>, p: RClass)
    requires Inv(m, g, u) && p in u
    ensures p in m && !p.iclass && p.attached != null && p.level > 0 && m[p].super == null && g.tower != []
            && p in g.sup
    ensures p.attached in m && m[p.attached].klass == p && p.attached.level + 1 == p.level
  {
    assert Attached(m, g, p) && Chain(m, g, p);
  }

  lemma PlainLevel(m: Nodes, g: Shape, s: RClass)
    requires Inv(m, g, {}) && s in m && !s.iclass && s.attached == null
    ensures s.level == 0 && s.odd == s.ofObject
  {
    assert Attached(m, g, s);
  }

  lemma RankKnown(m: Nodes, g: Shape, c: RClass)
    requires Inv(m, g, {}) && c in m
    ensures c in g.sup && c in g.rank && 1 <= g.rank[c] && g.tower != []
  {
    assert Chain(m, g, c);
  }

  lemma InTower(m: Nodes, g: Shape, u: set<RClass>)
    requires Inv(m, g, u)
    ensures forall x :: x in g.tower ==> x in m
  {}

  //----------------------------------------------------------------------------
  // Where everything starts

  ghost function BootNodes(b: RClass, o: RClass, m: RClass, c: RClass): Nodes
  {
    map[b := Node(c, null), o := Node(c, b), m := Node(c, o), c := Node(c, m)]
  }

  ghost function BootShape(b: RClass, o: RClass, m: RClass, c: RClass): Shape
  {
    Shape(map[b := null, o := b, m := o, c := m], map[b := 1, o := 2, m := 3, c := 4], [c])
  }

  ghost predicate Plain(x: RClass) { !x.iclass && x.attached == null && x.level == 0 && !x.odd && !x.ofObject }

  lemma Boot(b: RClass, o: RClass, m: RClass, c: RClass)
    requires b != o && b != m && b != c && o != m && o != c && m != c && Plain(b) && Plain(o) && Plain(m) && Plain(c)
    ensures Inv(BootNodes(b, o, m, c), BootShape(b, o, m, c), {})
  {
    var n, g := BootNodes(b, o, m, c), BootShape(b, o, m, c);
    assert Chain(n, g, b) && Chain(n, g, o) && Chain(n, g, m) && Chain(n, g, c);
    assert Attached(n, g, b) && Attached(n, g, o) && Attached(n, g, m) && Attached(n, g, c);
    assert Belongs(n, g, b) && Belongs(n, g, o) && Belongs(n, g, m) && Belongs(n, g, c);
    hide Chain, Attached, Belongs, Mirrors;
  }

  lemma BegunExtends(m: Nodes, g: Shape, u: set<RClass>, k: RClass, p: RClass, c: RClass, t: seq<RClass>)
    requires CanBegin(m, g, u, k, p) && k in g.rank && (t == g.tower || t == g.tower + [p])
    ensures Extends(m, g, Begun(m, k, p, c), BegunShape(g, k, p, t), u, k.level)
    ensures k in Lacking(m, k.level) && Lacking(Begun(m, k, p, c), k.level) == Lacking(m, k.level) - {k}
    ensures p !in g.tower
  {
    InTower(m, g, u);
    hide Inv;
    BegunKeeps(m, g, u, k, p, c, t);
    BegunLacking(m, k, p, c);
  }

  lemma BegunBorrows(m: Nodes, g: Shape, k: RClass, p: RClass, c: RClass, t: seq<RClass>)
    requires k in m && !Own(m, k) && p !in m && k in g.sup && k in g.rank && p != k
    ensures var h := BegunShape(g, k, p, t);
            Borrows(m, k.level, g.sup[k], m[k].klass) ==>
              k in h.sup && Borrows(Begun(m, k, p, c), k.level, h.sup[k], m[k].klass)
  {}

  lemma BegunKeeps(m: Nodes, g: Shape, u: set<RClass>, k: RClass, p: RClass, c: RClass, t: seq<RClass>)
    requires k in m && k !in u && !Own(m, k) && p !in m && !p.iclass && p.level == k.level + 1
    requires k in g.rank && (t == g.tower || t == g.tower + [p])
    ensures Extends(m, g, Begun(m, k, p, c), BegunShape(g, k, p, t), u, k.level)
  {
    var n, h := Begun(m, k, p, c), BegunShape(g, k, p, t);
    assert forall x :: x in m ==> n[x] == if x == k then Node(p, m[k].super) else m[x];
    assert forall x :: x in n && x !in m ==> x == p;
  }

  lemma BegunLacking(m: Nodes, k: RClass, p: RClass, c: RClass)
    requires k in m && !k.iclass && !Own(m, k) && p !in m && p.attached == k && p.level == k.level + 1
    ensures k in Lacking(m, k.level) && Lacking(Begun(m, k, p, c), k.level) == Lacking(m, k.level) - {k}
  {
    var n := Begun(m, k, p, c);
    assert Own(n, k);
    forall x
      ensures x in Lacking(n, k.level) <==> x in Lacking(m, k.level) && x != k
    {
      assert x in m && x != k ==> n[x] == m[x];
      assert x in n ==> x in m || x == p;
    }
  }

  lemma Unchanged(m: Nodes, g: Shape, u: set<RClass>, n: nat)
    ensures Extends(m, g, m, g, u, n)
  {}

  /** A change of a new class does not count. */
  lemma ExtendsExcept(m: Nodes, g: Shape, m1: Nodes, g1: Shape, m2: Nodes, g2: Shape, u: set<RClass>, n: nat, p: RClass)
    requires Extends(m, g, m1, g1, u, n) && p !in m && p in m1
    requires p in m2 && m2 == m1[p := m2[p]] && g2.tower == g1.tower && p in g2.sup && g2.sup == g1.sup[p := g2.sup[p]]
    ensures Extends(m, g, m2, g2, u, n)
  {}

  lemma TowerLevel(m: Nodes, g: Shape, u: set<RClass>, n: nat)
    requires Inv(m, g, u) && n < |g.tower|
    ensures g.tower[n] in m && !g.tower[n].iclass && !g.tower[n].odd && g.tower[n].level == n
            && (n == 0 ==> g.tower[0].attached == null)
    ensures n + 1 < |g.tower| ==> Own(m, g.tower[n])
    ensures Own(m, g.tower[n]) ==> n + 1 < |g.tower| && m[g.tower[n]].klass == g.tower[n + 1]
  {
    assert Attached(m, g, g.tower[n]);
    assert m[g.tower[n]].klass == g.tower[if n + 1 < |g.tower| then n + 1 else n];
    assert n + 1 < |g.tower| ==> g.tower[n + 1].attached == g.tower[n];
  }

  lemma ExtendsAt(m: Nodes, g: Shape, m': Nodes, g': Shape, u: set<RClass>, n: nat, x: RClass)
    requires Extends(m, g, m', g', u, n) && x in m
    ensures x in m' && m'[x].super == m[x].super && g.tower <= g'.tower
    ensures Own(m, x) || x in u ==> m'[x].klass == m[x].klass
    ensures x in g.sup ==> x in g'.sup && g'.sup[x] == g.sup[x]
  {}

  /** The superclass of a finished class is at its level, or is a metaclass of Class that has
      a metaclass itself; only an ordinary class has none. */
  lemma SuperLevel(m: Nodes, g: Shape, u: set<RClass>, k: RClass)
    requires Inv(m, g, u) && k in m && !k.iclass && k !in u
    ensures k in g.sup && (g.sup[k] == null ==> k.level == 0)
    ensures g.sup[k] != null ==> g.sup[k] in m && !g.sup[k].iclass && !g.sup[k].odd
                                 && (g.sup[k].level == k.level || (Own(m, g.sup[k]) && g.sup[k].level < k.level))
  {
    assert Chain(m, g, k) && Belongs(m, g, k) && Attached(m, g, k);
    if k.attached != null { assert Mirrors(m, g, k); }
    if 0 < k.level { TowerLevel(m, g, u, k.level - 1); }
  }

  /** What is known of an unfinished metaclass after another one was asked for. */
  lemma Ensured(m: Nodes, g: Shape, m': Nodes, g': Shape, u: set<RClass>, n: nat, p: RClass)
    requires Extends(m, g, m', g', u, n) && p in u && p in m && p !in g.tower
    ensures p in m' && p !in g'.tower && m'[p].klass == m[p].klass
  {}

  /** Class at a level got its metaclass. */
  lemma EnsuredTower(m: Nodes, g: Shape, m': Nodes, g': Shape, u: set<RClass>, n: nat)
    requires Inv(m', g', u) && Extends(m, g, m', g', u, n) && n < |g.tower| && g.tower[n] in m' && Own(m', g.tower[n])
    ensures n + 1 < |g'.tower| && m'[g.tower[n]].klass == g'.tower[n + 1]
  {
    assert g'.tower[n] == g.tower[n];
    TowerLevel(m', g', u, n);
  }

  lemma ExtendsLower(m: Nodes, g: Shape, m': Nodes, g': Shape, u: set<RClass>, n: nat, l: nat)
    requires Extends(m, g, m', g', u, n) && l <= n
    ensures Extends(m, g, m', g', u, l)
  {}

  /** The metaclass of the superclass of a class that comes from an object. */
  lemma Borrowed(m: Nodes, g: Shape, u: set<RClass>, k: RClass)
    requires Inv(m, g, u) && k in m && !k.iclass && k !in u && k.odd && k in g.sup && g.sup[k] != null
             && g.sup[k] !in u && Own(m, g.sup[k])
    ensures var q := m[g.sup[k]].klass;
            q in m && !q.iclass && !q.odd && q.level == g.sup[k].level + 1
  {
    assert Chain(m, g, k);
    OwnMetaclass(m, g, u, g.sup[k]);
  }

  //----------------------------------------------------------------------------
  // New classes and included modules

  /** A class that is just allocated belongs to Class; the singleton class of an object, to what
      the object's class belongs to. */
  ghost predicate NewClass(m: Nodes, g: Shape, c: RClass, k: RClass?, s: RClass)
  {
    && !c.iclass && c.attached == null && c.level == 0 && c.odd == c.ofObject
    && s in m && !s.iclass && s.level == 0 && !s.odd && g.tower != []
    && k == if c.ofObject then m[s].klass else g.tower[0]
  }

  ghost function NewShape(g: Shape, c: RClass, s: RClass): Shape
    requires s in g.rank
  {
    Shape(g.sup[c := s], g.rank[c := g.rank[s] + 1], g.tower)
  }

  lemma Defined(m: Nodes, g: Shape, c: RClass, k: RClass?, s: RClass)
    requires Inv(m, g, {}) && c !in m && NewClass(m, g, c, k, s)
    ensures s in g.rank && Inv(m[c := Node(k, s)], NewShape(g, c, s), {})
  {
    assert Chain(m, g, s);
    hide Belongs, Mirrors, Attached, Chain;
    TowerKept(m, g, m[c := Node(k, s)], NewShape(g, c, s));
    hide Tower;
    DefinedChains(m, g, c, k, s);
    DefinedClasses(m, g, c, k, s);
  }

  lemma DefinedChains(m: Nodes, g: Shape, c: RClass, k: RClass?, s: RClass)
    requires Inv(m, g, {}) && c !in m && NewClass(m, g, c, k, s) && s in g.rank
    ensures var n, h := m[c := Node(k, s)], NewShape(g, c, s); forall x :: x in n ==> Chain(n, h, x)
  {
    hide Belongs, Mirrors, Attached, Chain, Tower;
    var n, h := m[c := Node(k, s)], NewShape(g, c, s);
    forall x | x in n
      ensures Chain(n, h, x)
    {
      DefinedChain(m, g, c, k, s, x);
    }
  }

  lemma DefinedClasses(m: Nodes, g: Shape, c: RClass, k: RClass?, s: RClass)
    requires Inv(m, g, {}) && c !in m && NewClass(m, g, c, k, s) && s in g.rank
    ensures var n, h := m[c := Node(k, s)], NewShape(g, c, s);
            forall x :: x in n && !x.iclass ==>
              && Attached(n, h, x) && Belongs(n, h, x)
              && (x.attached != null ==> x in h.sup && Mirrors(n, h, x))
  {
    TowerLevel(m, g, {}, 0);
    hide Belongs, Mirrors, Attached, Chain, Tower;
    DefinedSelf(m, g, c, k, s);
    var n, h := m[c := Node(k, s)], NewShape(g, c, s);
    forall x | x in n && !x.iclass
      ensures Attached(n, h, x) && Belongs(n, h, x) && (x.attached != null ==> x in h.sup && Mirrors(n, h, x))
    {
      if x != c { DefinedClass(m, g, c, k, s, x); }
    }
  }

  lemma DefinedChain(m: Nodes, g: Shape, c: RClass, k: RClass?, s: RClass, x: RClass)
    requires c !in m && NewClass(m, g, c, k, s) && Chain(m, g, s) && (x in m ==> Chain(m, g, x)) && (x in m || x == c)
    ensures Chain(m[c := Node(k, s)], NewShape(g, c, s), x)
  {}

  lemma DefinedClass(m: Nodes, g: Shape, c: RClass, k: RClass?, s: RClass, x: RClass)
    requires Inv(m, g, {}) && c !in m && s in g.rank && x in m && !x.iclass
    ensures var n, h := m[c := Node(k, s)], NewShape(g, c, s);
            Attached(n, h, x) && Belongs(n, h, x) && (x.attached != null ==> x in h.sup && Mirrors(n, h, x))
  {
    Known(m, g, {}, x);
    var n, h := m[c := Node(k, s)], NewShape(g, c, s);
    assert Attached(m, g, x);
    hide Chain, Attached, Belongs, Mirrors, Tower;
    CarriesOne(m, g, h, c, n[c]);
    hide Carries;
    CarriedAttached(m, g, n, h, x);
    OwnKnown(m, g, {}, x);
    Carried(m, g, n, h, {}, x);
  }

  lemma DefinedSelf(m: Nodes, g: Shape, c: RClass, k: RClass?, s: RClass)
    requires c !in m && NewClass(m, g, c, k, s) && s in g.rank && Belongs(m, g, s) && g.tower[0] in m
    ensures var n, h := m[c := Node(k, s)], NewShape(g, c, s); Attached(n, h, c) && Belongs(n, h, c)
  {}

  ghost function Inserted(m: Nodes, c: RClass, i: RClass, module_: RClass): Nodes
    requires c in m
  {
    m[i := Node(module_, m[c].super)][c := Node(m[c].klass, i)]
  }

  /** To make room for one more rank, all others are doubled. */
  ghost predicate InsertedShape(g: Shape, h: Shape, c: RClass, i: RClass)
  {
    && c in g.sup && c in g.rank && 1 <= g.rank[c]
    && h.sup == g.sup[i := g.sup[c]] && h.tower == g.tower
    && (forall x :: x in g.rank && x != i ==> x in h.rank && h.rank[x] == 2 * g.rank[x])
    && i in h.rank && h.rank[i] == 2 * g.rank[c] - 1
  }

  lemma InsertShape(g: Shape, c: RClass, i: RClass) returns (h: Shape)
    requires c in g.sup && c in g.rank && 1 <= g.rank[c]
    ensures InsertedShape(g, h, c, i) && h.sup == g.sup[i := g.sup[c]] && h.tower == g.tower
  {
    h := Shape(g.sup[i := g.sup[c]], (map x | x in g.rank :: 2 * g.rank[x])[i := 2 * g.rank[c] - 1], g.tower);
  }

  lemma InsertedNodes(m: Nodes, c: RClass, i: RClass, module_: RClass)
    requires c in m && i !in m
    ensures var n := Inserted(m, c, i, module_);
            && n.Keys == m.Keys + {i} && n[i] == Node(module_, m[c].super) && n[c] == Node(m[c].klass, i)
            && forall x :: x in m && x != c ==> n[x] == m[x]
  {}

  lemma InsertChain(m: Nodes, g: Shape, h: Shape, c: RClass, i: RClass, module_: RClass, x: RClass)
    requires c in m && i !in m && i.iclass && i.level == c.level && InsertedShape(g, h, c, i) && Chain(m, g, c)
    requires x in m && Chain(m, g, x)
    ensures Chain(Inserted(m, c, i, module_), h, x)
  {}

  lemma InsertChainNew(m: Nodes, g: Shape, h: Shape, c: RClass, i: RClass, module_: RClass)
    requires c in m && i !in m && i.iclass && i.level == c.level && InsertedShape(g, h, c, i) && Chain(m, g, c)
    ensures Chain(Inserted(m, c, i, module_), h, i)
  {}

  lemma InsertAttached(m: Nodes, g: Shape, h: Shape, c: RClass, i: RClass, module_: RClass, x: RClass)
    requires c in m && i !in m && InsertedShape(g, h, c, i) && x in m && Attached(m, g, x)
    ensures Attached(Inserted(m, c, i, module_), h, x)
  {}

  lemma InsertBelongs(m: Nodes, g: Shape, h: Shape, c: RClass, i: RClass, module_: RClass, x: RClass)
    requires c in m && i !in m && InsertedShape(g, h, c, i) && x in m && Belongs(m, g, x)
    ensures Belongs(Inserted(m, c, i, module_), h, x)
  {}

  lemma InsertMirrors(m: Nodes, g: Shape, h: Shape, c: RClass, i: RClass, module_: RClass, x: RClass)
    requires c in m && i !in m && InsertedShape(g, h, c, i) && x in m && x.attached != null && x.attached in m
             && x in g.sup && Mirrors(m, g, x)
    ensures x in h.sup && Mirrors(Inserted(m, c, i, module_), h, x)
  {}

  lemma InsertClass(m: Nodes, g: Shape, h: Shape, c: RClass, i: RClass, module_: RClass, x: RClass)
    requires Inv(m, g, {}) && c in m && i !in m && i.iclass && InsertedShape(g, h, c, i) && x in m && !x.iclass
    ensures var n := Inserted(m, c, i, module_);
            Attached(n, h, x) && Belongs(n, h, x) && (x.attached != null ==> x in h.sup && Mirrors(n, h, x))
  {
    assert Chain(m, g, x) && Attached(m, g, x);
    hide Tower, Chain, Attached, Belongs, Mirrors, Inserted, InsertedShape;
    InsertAttached(m, g, h, c, i, module_, x);
    InsertBelongs(m, g, h, c, i, module_, x);
    if x.attached != null { InsertMirrors(m, g, h, c, i, module_, x); }
  }

  /** An include class behind c changes no real superclass. */
  lemma Insert(m: Nodes, g: Shape, h: Shape, c: RClass, i: RClass, module_: RClass)
    requires Inv(m, g, {}) && c in m && i !in m && i.iclass && i.attached == null && i.level == c.level
             && InsertedShape(g, h, c, i)
    ensures Inv(Inserted(m, c, i, module_), h, {})
  {
    hide Belongs, Mirrors, Attached, Chain;
    var n := Inserted(m, c, i, module_);
    TowerKept(m, g, n, h);
    hide Tower;
    InsertChainNew(m, g, h, c, i, module_);
    forall x | x in n
      ensures Chain(n, h, x)
    {
      if x != i { InsertChain(m, g, h, c, i, module_, x); }
    }
    forall x | x in n && !x.iclass
      ensures Attached(n, h, x) && Belongs(n, h, x) && (x.attached != null ==> x in h.sup && Mirrors(n, h, x))
    {
      InsertClass(m, g, h, c, i, module_, x);
    }
  }

  //----------------------------------------------------------------------------
  // The theorem

  /** From x, through n include classes, to the superclass r that is none. */
  ghost predicate SkipsTo(m: Nodes, x: RClass, r: RClass?, n: nat)
  {
    x in m &&
    if n == 0 then m[x].super == r && (r == null || !r.iclass)
    else m[x].super != null && m[x].super.iclass && SkipsTo(m, m[x].super, r, n - 1)
  }

  lemma {:induction false} RealSuperclass(m: Nodes, g: Shape, u: set<RClass>, x: RClass, r: RClass?, n: nat)
    requires Inv(m, g, u) && SkipsTo(m, x, r, n)
    ensures x in g.sup && r == g.sup[x]
    decreases n
  {
    assert Chain(m, g, x);
    if n > 0 { RealSuperclass(m, g, u, m[x].super, r, n - 1); }
  }

  lemma {:induction false} HasRealSuperclass(m: Nodes, g: Shape, u: set<RClass>, x: RClass) returns (n: nat)
    requires Inv(m, g, u) && x in m
    ensures x in g.sup && SkipsTo(m, x, g.sup[x], n)
    decreases x.level, if x in g.rank then g.rank[x] else 0
  {
    hide Tower, Attached, Belongs, Mirrors;
    assert Chain(m, g, x);
    if m[x].super == null || !m[x].super.iclass {
      n := 0;
    } else {
      assert Chain(m, g, m[x].super);
      var k := HasRealSuperclass(m, g, u, m[x].super);
      n := k + 1;
    }
  }

  /** For a class with a metaclass of its own, the superclass of the metaclass is the
      metaclass of the superclass, or Class if there is no superclass. */
  lemma Square(m: Nodes, g: Shape, k: RClass, s: RClass?, i: nat, t: RClass?, j: nat)
    requires Inv(m, g, {}) && k in m && !k.iclass && Own(m, k)
    requires SkipsTo(m, k, s, i) && SkipsTo(m, m[k].klass, t, j)
    ensures s == null ==> t == g.tower[0]
    ensures s != null ==> Own(m, s) && t == m[s].klass
  {
    OwnMetaclass(m, g, {}, k);
    RealSuperclass(m, g, {}, k, s, i);
    RealSuperclass(m, g, {}, m[k].klass, t, j);
    assert Mirrors(m, g, m[k].klass);
  }

  /** A class without one belongs to the metaclass of Class at its level, or, if it comes from an
      object, to the metaclass of its superclass. */
  lemma Shared(m: Nodes, g: Shape, k: RClass)
    requires Inv(m, g, {}) && k in m && !k.iclass && !Own(m, k)
    ensures k.level < |g.tower| && (m[k].klass == g.tower[k.level]
                                    || (k.odd && k in g.sup && Borrows(m, k.level, g.sup[k], m[k].klass)))
    ensures forall i ::
      0 < i <= k.level ==> m[g.tower[i - 1]].klass == g.tower[i] && g.tower[i].attached == g.tower[i - 1]
  {
    assert Belongs(m, g, k);
    forall i | 0 < i <= k.level
      ensures m[g.tower[i - 1]].klass == g.tower[i]
    {
      TowerLevel(m, g, {}, i - 1);
    }
  }
}
