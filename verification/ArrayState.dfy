/**
 * The states of Ruby arrays and the invariant of the heap they live in.
 *
 * An array keeps up to three elements in the object itself, owns a buffer, or shows a
 * window of a buffer owned by a shared root.  A root is a hidden object made for the
 * purpose, or a frozen array that became one; its capacity field counts references.
 */
module ArrayState {
  datatype Value = Nil | Object(id: int)

  const EMBED_LEN_MAX: nat := 3
  const ARY_DEFAULT_SIZE: nat := 16
  const ARY_MAX_SIZE: nat := 0x7FFF_FFFF_FFFF_FFFF / 8

  /** What the flags select of an array object's body.  `embed` of a root is set just before
      the object is recycled, when its buffer was taken over. */
  datatype Storage =
    | Embedded(slots: seq<Value>, len: nat)
    | Owned(buf: array<Value>, len: nat, capa: nat)
    | Shared(buf: array<Value>, off: nat, len: nat, root: RArray)
    | Root(buf: array<Value>, len: nat, num: int, embed: bool)
  {
    /** `ARY_OWNS_HEAP_P`. */
    predicate OwnsHeap() { Owned? || (Root? && !embed) }

    /** `ARY_CAPA`; an array that shares its elements has none. */
    function Capa(): nat
      requires !Shared?
    {
      match this
      case Embedded(_, _) => EMBED_LEN_MAX
      case Owned(_, _, c) => c
      case Root(_, n, _, _) => n
    }

    function WithLen(n: nat): (s: Storage)
      ensures s.len == n && BufferOf(s) == BufferOf(this)
    {
      match this
      case Embedded(s, _) => Embedded(s, n)
      case Owned(b, _, c) => Owned(b, n, c)
      case Shared(b, o, _, r) => Shared(b, o, n, r)
      case Root(b, _, c, e) => Root(b, n, c, e)
    }

    ghost predicate Fits()
    {
      match this
      case Embedded(s, n) => |s| == EMBED_LEN_MAX && n <= EMBED_LEN_MAX
      case Owned(b, n, c) => n <= c == b.Length
      case Shared(b, o, n, _) => o + n <= b.Length
      case Root(b, n, _, _) => n == b.Length
    }

    ghost predicate Uses(b: array<Value>) { !Embedded? && buf == b }

    ghost predicate PointsTo(r: RArray) { Shared? && root == r }
  }

  class RArray {
    /** No class pointer: a root made by `ary_make_shared`. */
    const hidden: bool
    var st: Storage
    var frozen: bool

    constructor (h: bool, s: Storage, f: bool)
      ensures hidden == h && st == s && frozen == f
    {
      hidden, st, frozen := h, s, f;
    }

    /** The memory from the array's pointer to the end of the buffer. */
    ghost function Room(): (s: seq<Value>)
      reads this`st, if st.Embedded? then {} else {st.buf}
      ensures st.Fits() ==> st.len <= |s|
    {
      match st
      case Embedded(s, _) => s
      case Owned(b, _, _) => b[..]
      case Shared(b, o, _, _) => if o <= b.Length then b[o..] else []
      case Root(b, _, _, _) => b[..]
    }

    /** What Ruby code sees of the array. */
    ghost function Contents(): (s: seq<Value>)
      reads this`st, if st.Embedded? then {} else {st.buf}
      ensures st.Fits() ==> |s| == st.len
    {
      if st.Fits() then Room()[..st.len] else []
    }
  }

  datatype Cell = Cell(st: Storage, frozen: bool)

  type Cells = map<RArray, Cell>

  ghost function Sharers(m: Cells, r: RArray): set<RArray>
  {
    set a | a in m && m[a].st.PointsTo(r)
  }

  ghost function OwnedBuffers(m: Cells): set<array<Value>>
  {
    set a | a in m && m[a].st.OwnsHeap() :: m[a].st.buf
  }

  /** The references a root counts: the arrays that show its buffer, itself if Ruby code can
      see it, and the one a running operation is about to add or give up. */
  ghost function References(m: Cells, r: RArray, pending: RArray?): nat
  {
    |Sharers(m, r)| + (if r.hidden then 0 else 1) + (if pending == r then 1 else 0)
  }

  ghost predicate CellOk(m: Cells, a: RArray, pending: RArray?)
    requires a in m
  {
    var st := m[a].st;
    && st.Fits() && (a.hidden ==> st.Root?)
    && (st.Shared? ==> SharesWith(m, st))
    && (st.Root? ==> m[a].frozen && 1 <= st.num == References(m, a, pending) && (st.embed ==> pending == a && a.hidden))
  }

  ghost predicate SharesWith(m: Cells, st: Storage)
    requires st.Shared?
  {
    st.root in m && m[st.root].st.Root? && m[st.root].st.buf == st.buf && !m[st.root].st.embed
  }

  ghost predicate SoleOwners(m: Cells)
  {
    forall a, b :: a in m && b in m && m[a].st.OwnsHeap() && m[b].st.OwnsHeap() && m[a].st.buf == m[b].st.buf ==> a == b
  }

  /** Every array is well formed, every root counts its references exactly, every buffer has
      one owner, and the buffers allocated are those that are owned. */
  ghost predicate Inv(m: Cells, live: set<array<Value>>, pending: RArray?)
  {
    && (forall a :: a in m ==> CellOk(m, a, pending))
    && SoleOwners(m)
    && live == OwnedBuffers(m)
  }

  //----------------------------------------------------------------------------
  // Who can see a buffer

  /** "Occupied" is what it claims to be: with a count of one nobody else sees the buffer. */
  lemma Occupied(m: Cells, live: set<array<Value>>, a: RArray)
    requires Inv(m, live, null) && a in m && m[a].st.Shared? && m[m[a].st.root].st.num == 1
    ensures m[a].st.root.hidden && Sharers(m, m[a].st.root) == {a} && m[a].st.buf in live
    ensures forall b :: b in m && b != a && b != m[a].st.root ==> !m[b].st.Uses(m[a].st.buf)
  {
    var r := m[a].st.root;
    assert CellOk(m, a, null) && CellOk(m, r, null);
    SingletonSet(Sharers(m, r), a);
    forall b | b in m && b != a && b != r
      ensures !m[b].st.Uses(m[a].st.buf)
    {
      assert CellOk(m, b, null);
      assert b !in Sharers(m, r);
      if m[b].st.Shared? { assert CellOk(m, m[b].st.root, null); }
    }
  }

  lemma SingletonSet<T>(s: set<T>, a: T)
    requires a in s && |s| <= 1
    ensures s == {a}
  {
    assert |s - {a}| == 0;
  }

  lemma SoleUser(m: Cells, live: set<array<Value>>, a: RArray)
    requires Inv(m, live, null) && a in m && m[a].st.Owned?
    ensures m[a].st.buf in live
    ensures forall b :: b in m && b != a ==> !m[b].st.Uses(m[a].st.buf)
  {
    forall b | b in m && b != a
      ensures !m[b].st.Uses(m[a].st.buf)
    {
      assert CellOk(m, b, null);
      if m[b].st.Shared? { assert CellOk(m, m[b].st.root, null); }
    }
  }

  //----------------------------------------------------------------------------
  // What each kind of update keeps

  ghost function BufferOf(st: Storage): set<array<Value>> { if st.OwnsHeap() then {st.buf} else {} }

  ghost predicate Private(st: Storage) { st.Embedded? || st.Owned? }

  lemma BuffersAfter(m: Cells, a: RArray, c: Cell)
    requires SoleOwners(m)
    ensures OwnedBuffers(m[a := c]) == OwnedBuffers(m) - (if a in m then BufferOf(m[a].st) else {}) + BufferOf(c.st)
  {
    var n, o := m[a := c], OwnedBuffers(m) - (if a in m then BufferOf(m[a].st) else {}) + BufferOf(c.st);
    forall x | x in OwnedBuffers(n)
      ensures x in o
    {
      var b: RArray :| b in n && n[b].st.OwnsHeap() && n[b].st.buf == x;
      assert b != a ==> m[b].st.buf == x;
    }
    forall x | x in o
      ensures x in OwnedBuffers(n)
    {
      if x in BufferOf(c.st) {
        assert n[a].st.buf == x;
      } else {
        var b: RArray :| b in m && m[b].st.OwnsHeap() && m[b].st.buf == x;
        assert n[b].st.buf == x;
      }
    }
  }

  ghost function Points(st: Storage, r: RArray): nat { if st.PointsTo(r) then 1 else 0 }

  lemma SharersAfter(m: Cells, a: RArray, c: Cell, r: RArray)
    ensures |Sharers(m[a := c], r)| == |Sharers(m, r)| - (if a in m then Points(m[a].st, r) else 0) + Points(c.st, r)
  {
    hide Sharers;
    OthersShare(m, a, c, r);
    CardinalityWithout(Sharers(m, r), a);
    CardinalityWithout(Sharers(m[a := c], r), a);
  }

  lemma OthersShare(m: Cells, a: RArray, c: Cell, r: RArray)
    ensures var s, t := Sharers(m, r), Sharers(m[a := c], r);
            t - {a} == s - {a} && (a in s <==> a in m && m[a].st.PointsTo(r)) && (a in t <==> c.st.PointsTo(r))
  {}

  lemma CardinalityWithout<T>(s: set<T>, a: T)
    ensures |s| == |s - {a}| + (if a in s then 1 else 0)
  {
    if a !in s { assert s - {a} == s; }
  }

  /** One array changed: what has to be shown for the others is only their counts. */
  lemma Updated(m: Cells, live: set<array<Value>>, p: RArray?, q: RArray?, a: RArray, c: Cell)
    requires Inv(m, live, p) && (a in m || (c.st.Root? ==> forall b :: b in m ==> !m[b].st.PointsTo(a)))
    requires BufferOf(c.st) !! (live - (if a in m then BufferOf(m[a].st) else {}))
    requires CellOk(m[a := c], a, q)
    requires a in m && m[a].st.Root? ==> c.st.Root? && c.st.buf == m[a].st.buf && c.st.embed == m[a].st.embed
    requires forall r :: r in m && r != a && m[r].st.Root? ==>
      && (m[r].st.embed ==> q == r)
      && Points(c.st, r) + (if q == r then 1 else 0) == (if a in m then Points(m[a].st, r) else 0)
         + (if p == r then 1 else 0)
    ensures Inv(m[a := c], live - (if a in m then BufferOf(m[a].st) else {}) + BufferOf(c.st), q)
  {
    hide Sharers, OwnedBuffers;
    var n := m[a := c];
    BuffersAfter(m, a, c);
    forall b | b in m && m[b].st.OwnsHeap()
      ensures m[b].st.buf in live
    {
      OwnerLive(m, live, p, b);
    }
    forall b | b in n && b != a
      ensures CellOk(n, b, q)
    {
      assert CellOk(m, b, p);
      SharersAfter(m, a, c, b);
    }
  }

  /** An array that shares nothing gets other storage of its own. */
  lemma Replaced(m: Cells, live: set<array<Value>>, pending: RArray?, a: RArray, c: Cell)
    requires Inv(m, live, pending) && a in m && Private(m[a].st) && Private(c.st) && c.st.Fits()
    requires BufferOf(c.st) !! (live - BufferOf(m[a].st))
    ensures Inv(m[a := c], live - BufferOf(m[a].st) + BufferOf(c.st), pending)
  {
    hide Sharers, OwnedBuffers;
    assert CellOk(m, a, pending);
    assert forall r :: r in m && m[r].st.Root? ==> CellOk(m, r, pending);
    Updated(m, live, pending, pending, a, c);
  }

  /** A shared array shows another window of the same buffer. */
  lemma Moved(m: Cells, live: set<array<Value>>, a: RArray, c: Cell)
    requires Inv(m, live, null) && a in m && m[a].st.Shared? && c.st.Shared? && c.st.Fits()
    requires c.st.root == m[a].st.root && c.st.buf == m[a].st.buf
    ensures Inv(m[a := c], live, null)
  {
    hide Sharers, OwnedBuffers;
    assert CellOk(m, a, null);
    assert forall r :: r in m && m[r].st.Root? ==> CellOk(m, r, null);
    Updated(m, live, null, null, a, c);
  }

  /** A shared array gets storage of its own; its reference is still counted. */
  lemma Unshared(m: Cells, live: set<array<Value>>, a: RArray, c: Cell)
    requires Inv(m, live, null) && a in m && m[a].st.Shared? && Private(c.st) && c.st.Fits() && BufferOf(c.st) !! live
    ensures Inv(m[a := c], live + BufferOf(c.st), m[a].st.root)
  {
    hide Sharers, OwnedBuffers;
    assert CellOk(m, a, null);
    assert forall r :: r in m && m[r].st.Root? ==> CellOk(m, r, null);
    Updated(m, live, null, m[a].st.root, a, c);
  }

  /** The only user of a hidden root takes over its buffer. */
  lemma Stolen(m: Cells, live: set<array<Value>>, a: RArray, c: Cell)
    requires Inv(m, live, null) && a in m && m[a].st.Shared? && m[m[a].st.root].st.num == 1
    requires c.st.Owned? && c.st.Fits() && c.st.buf == m[a].st.buf
    ensures var r := m[a].st.root;
            r in m && m[r].st.Root? && Inv(m[a := c][r := Cell(m[r].st.(embed := true), m[r].frozen)], live, r)
  {
    Occupied(m, live, a);
    var r := m[a].st.root;
    assert CellOk(m, a, null) && CellOk(m, r, null);
    var d := Cell(m[r].st.(embed := true), m[r].frozen);
    var n := m[a := c][r := d];
    forall b | b in n
      ensures CellOk(n, b, r)
    {
      assert CellOk(m, b, null);
      assert b != a && m[b].st.PointsTo(r) ==> b in Sharers(m, r);
      SharersAfter(m, a, c, b);
      SharersAfter(m[a := c], r, d, b);
    }
    StolenOwners(m, live, a, c);
  }

  lemma StolenSole(m: Cells, a: RArray, r: RArray, c: Cell)
    requires SoleOwners(m) && a in m && r in m && m[r].st.Root? && c.st.Owned?
    requires forall b :: b in m && b != a && b != r ==> !m[b].st.Uses(c.st.buf)
    ensures var d := Cell(m[r].st.(embed := true), m[r].frozen); SoleOwners(m[r := d]) && SoleOwners(m[a := c][r := d])
  {
    var n := m[a := c][r := Cell(m[r].st.(embed := true), m[r].frozen)];
    forall x, y | x in n && y in n && n[x].st.OwnsHeap() && n[y].st.OwnsHeap() && n[x].st.buf == n[y].st.buf
      ensures x == y
    {
      assert x != a && x != r ==> !m[x].st.Uses(c.st.buf);
      assert y != a && y != r ==> !m[y].st.Uses(c.st.buf);
    }
  }

  lemma StolenBuffers(m: Cells, live: set<array<Value>>, a: RArray, r: RArray, c: Cell)
    requires SoleOwners(m) && OwnedBuffers(m) == live && a in m && r in m && a != r
    requires m[a].st.Shared? && m[r].st.Root? && !m[r].st.embed && m[r].st.buf in live
    requires c.st.Owned? && c.st.buf == m[r].st.buf && SoleOwners(m[r := Cell(m[r].st.(embed := true), m[r].frozen)])
    ensures OwnedBuffers(m[a := c][r := Cell(m[r].st.(embed := true), m[r].frozen)]) == live
  {
    hide SoleOwners, OwnedBuffers;
    var d := Cell(m[r].st.(embed := true), m[r].frozen);
    assert m[r := d][a := c] == m[a := c][r := d];
    BuffersAfter(m, r, d);
    BuffersAfter(m[r := d], a, c);
    assert live - {c.st.buf} + {c.st.buf} == live;
  }

  lemma StolenOwners(m: Cells, live: set<array<Value>>, a: RArray, c: Cell)
    requires Inv(m, live, null) && a in m && m[a].st.Shared? && m[m[a].st.root].st.num == 1
    requires c.st.Owned? && c.st.Fits() && c.st.buf == m[a].st.buf
    ensures var r := m[a].st.root;
            r in m && m[r].st.Root? && (var n := m[a := c][r := Cell(m[r].st.(embed := true), m[r].frozen)];
            SoleOwners(n) && OwnedBuffers(n) == live)
  {
    Occupied(m, live, a);
    var r := m[a].st.root;
    assert CellOk(m, a, null) && CellOk(m, r, null);
    StolenSole(m, a, r, c);
    StolenBuffers(m, live, a, r, c);
  }

  /** A counted reference that nobody holds any more is taken back ... */
  lemma Dropped(m: Cells, live: set<array<Value>>, r: RArray)
    requires Inv(m, live, r) && r in m && m[r].st.Root? && m[r].st.num > 1 && !m[r].st.embed
    ensures Inv(m[r := Cell(m[r].st.(num := m[r].st.num - 1), m[r].frozen)], live, null)
  {
    hide Sharers, OwnedBuffers;
    assert CellOk(m, r, r);
    assert forall b :: b in m && m[b].st.Root? ==> CellOk(m, b, r);
    var c := Cell(m[r].st.(num := m[r].st.num - 1), m[r].frozen);
    SharersAfter(m, r, c, r);
    assert live - {m[r].st.buf} + {m[r].st.buf} == live by { OwnerLive(m, live, r, r); }
    Updated(m, live, r, null, r, c);
  }

  lemma OwnerLive(m: Cells, live: set<array<Value>>, p: RArray?, a: RArray)
    requires Inv(m, live, p) && a in m && m[a].st.OwnsHeap()
    ensures m[a].st.buf in live
  {}

  lemma RootCount(m: Cells, live: set<array<Value>>, p: RArray?, r: RArray)
    requires Inv(m, live, p) && r in m && m[r].st.Root?
    ensures 1 <= m[r].st.num && m[r].frozen && m[r].st.Fits()
  {
    assert CellOk(m, r, p);
  }

  /** ... and with the last one goes the root. */
  lemma Recycled(m: Cells, live: set<array<Value>>, r: RArray)
    requires Inv(m, live, r) && r in m && m[r].st.Root? && m[r].st.num == 1
    ensures r.hidden && Inv(m - {r}, live - BufferOf(m[r].st), null)
    ensures forall b :: b in m && b != r ==> !m[b].st.PointsTo(r)
  {
    assert CellOk(m, r, r);
    var n := m - {r};
    assert Sharers(m, r) == {};
    forall b | b in m && b != r
      ensures !m[b].st.PointsTo(r)
    {
      assert b !in Sharers(m, r);
    }
    BuffersWithout(m, r);
    forall b | b in n
      ensures CellOk(n, b, null)
    {
      assert CellOk(m, b, r);
      assert Sharers(n, b) == Sharers(m, b);
    }
  }

  lemma BuffersWithout(m: Cells, r: RArray)
    requires SoleOwners(m) && r in m
    ensures OwnedBuffers(m - {r}) == OwnedBuffers(m) - BufferOf(m[r].st)
  {
    var n := m - {r};
    forall x | x in OwnedBuffers(m) - BufferOf(m[r].st)
      ensures x in OwnedBuffers(n)
    {
      var b: RArray :| b in m && m[b].st.OwnsHeap() && m[b].st.buf == x;
      assert n[b].st.buf == x;
    }
  }

  /** A root whose buffer was taken over has no other reference. */
  lemma TakenOver(m: Cells, live: set<array<Value>>, r: RArray)
    requires Inv(m, live, r) && r in m && m[r].st.Root? && m[r].st.embed
    ensures m[r].st.num == 1
  {
    assert CellOk(m, r, r);
    assert Sharers(m, r) == {} by {
      assert forall x :: x in m ==> CellOk(m, x, r);
    }
  }

  /** A reference is counted before the pointer is set. */
  lemma Counted(m: Cells, live: set<array<Value>>, r: RArray)
    requires Inv(m, live, null) && r in m && m[r].st.Root?
    ensures Inv(m[r := Cell(m[r].st.(num := m[r].st.num + 1), m[r].frozen)], live, r)
  {
    hide Sharers, OwnedBuffers;
    assert CellOk(m, r, null);
    assert forall b :: b in m && m[b].st.Root? ==> CellOk(m, b, null);
    var c := Cell(m[r].st.(num := m[r].st.num + 1), m[r].frozen);
    SharersAfter(m, r, c, r);
    OwnerLive(m, live, null, r);
    assert live - {m[r].st.buf} + {m[r].st.buf} == live;
    Updated(m, live, null, r, r, c);
  }

  /** The counted reference becomes a pointer. */
  lemma Attached(m: Cells, live: set<array<Value>>, r: RArray, a: RArray, c: Cell)
    requires Inv(m, live, r) && r in m && m[r].st.Root? && !m[r].st.embed && a in m && Private(m[a].st)
    requires c.st.Shared? && c.st.root == r && c.st.buf == m[r].st.buf && c.st.Fits()
    ensures Inv(m[a := c], live - BufferOf(m[a].st), null)
  {
    hide Sharers, OwnedBuffers;
    assert CellOk(m, a, r);
    assert forall b :: b in m && m[b].st.Root? ==> CellOk(m, b, r);
    Updated(m, live, r, null, a, c);
  }

  /** The buffer of an array goes to a new hidden root, which counts that array. */
  lemma Rooted(m: Cells, live: set<array<Value>>, a: RArray, r: RArray, c: Cell, d: Cell)
    requires Inv(m, live, null) && a in m && m[a].st.Owned? && r !in m && r.hidden
    requires c.st == Shared(m[a].st.buf, 0, m[a].st.len, r)
             && d == Cell(Root(m[a].st.buf, m[a].st.capa, 1, false), true)
    ensures Inv(m[a := c][r := d], live, null)
  {
    var n := m[a := c][r := d];
    forall b | b in n
      ensures CellOk(n, b, null)
    {
      RootedCell(m, live, a, r, c, d, b);
    }
    OwnerLive(m, live, null, a);
    BuffersAfter(m, a, c);
    BuffersAfter(m[a := c], r, d);
    hide OwnedBuffers, Sharers, CellOk;
    assert live - {m[a].st.buf} + {m[a].st.buf} == live;
  }

  lemma RootedCell(m: Cells, live: set<array<Value>>, a: RArray, r: RArray, c: Cell, d: Cell, b: RArray)
    requires Inv(m, live, null) && a in m && m[a].st.Owned? && r !in m && r.hidden
    requires c.st == Shared(m[a].st.buf, 0, m[a].st.len, r)
             && d == Cell(Root(m[a].st.buf, m[a].st.capa, 1, false), true)
    requires b in m || b == r
    ensures CellOk(m[a := c][r := d], b, null)
  {
    assert CellOk(m, a, null);
    assert Sharers(m, r) == {} by {
      assert forall x :: x in m ==> CellOk(m, x, null);
    }
    hide OwnedBuffers, Sharers;
    SharersAfter(m, a, c, b);
    SharersAfter(m[a := c], r, d, b);
    if b != r { assert CellOk(m, b, null); }
  }

  /** A frozen array becomes a root and counts itself. */
  lemma SelfRooted(m: Cells, live: set<array<Value>>, a: RArray, c: Cell)
    requires Inv(m, live, null) && a in m && m[a].st.Owned? && m[a].frozen && c.frozen
    requires c.st.Root? && c.st.Fits() && c.st.num == 1 && !c.st.embed && c.st.buf !in (live - {m[a].st.buf})
    ensures Inv(m[a := c], live - {m[a].st.buf} + {c.st.buf}, null)
  {
    assert CellOk(m, a, null);
    assert Sharers(m, a) == {} by {
      assert forall x :: x in m ==> CellOk(m, x, null);
    }
    hide Sharers, OwnedBuffers;
    assert forall b :: b in m && m[b].st.Root? ==> CellOk(m, b, null);
    SharersAfter(m, a, c, a);
    Updated(m, live, null, null, a, c);
  }

  /** A new array. */
  lemma Added(m: Cells, live: set<array<Value>>, a: RArray, c: Cell)
    requires Inv(m, live, null) && a !in m && !a.hidden && Private(c.st) && c.st.Fits() && BufferOf(c.st) !! live
    ensures Inv(m[a := c], live + BufferOf(c.st), null)
  {
    hide Sharers, OwnedBuffers;
    assert forall b :: b in m && m[b].st.Root? ==> CellOk(m, b, null);
    Updated(m, live, null, null, a, c);
  }

  /** Another length or window, or other elements in the object. */
  lemma Resized(m: Cells, live: set<array<Value>>, a: RArray, c: Cell)
    requires Inv(m, live, null) && a in m && !m[a].st.Root? && c.st.Fits()
    requires match m[a].st
             case Embedded(_, _) => c.st.Embedded?
             case Owned(b, _, _) => c.st.Owned? && c.st.buf == b
             case Shared(b, _, _, r) => c.st.Shared? && c.st.buf == b && c.st.root == r
    ensures Inv(m[a := c], live, null)
  {
    hide Inv;
    if m[a].st.Shared? {
      Moved(m, live, a, c);
    } else {
      if m[a].st.Owned? { OwnerLive(m, live, null, a); }
      assert live - BufferOf(m[a].st) + BufferOf(c.st) == live;
      Replaced(m, live, null, a, c);
    }
  }

  /** An array is frozen. */
  lemma Frozen(m: Cells, live: set<array<Value>>, a: RArray)
    requires Inv(m, live, null) && a in m
    ensures Inv(m[a := Cell(m[a].st, true)], live, null)
  {
    hide Sharers, OwnedBuffers;
    var c := Cell(m[a].st, true);
    assert CellOk(m, a, null);
    assert forall r :: r in m && m[r].st.Root? ==> CellOk(m, r, null);
    SharersAfter(m, a, c, a);
    if c.st.OwnsHeap() { OwnerLive(m, live, null, a); }
    assert live - BufferOf(c.st) + BufferOf(c.st) == live;
    Updated(m, live, null, null, a, c);
  }

  //----------------------------------------------------------------------------
  // Capacities

  /** The capacity `ary_double_capa` asks for. */
  function NewCapa(capa: nat, min: nat): nat
    requires min <= ARY_MAX_SIZE
  {
    var half := if capa / 2 < ARY_DEFAULT_SIZE then ARY_DEFAULT_SIZE else capa / 2;
    min + if half >= ARY_MAX_SIZE - min then (ARY_MAX_SIZE - min) / 2 else half
  }

  /** There is room for what was asked for, and for one more element exactly if that is
      below the last index an array may have. */
  lemma NewCapaRoom(capa: nat, min: nat)
    requires min <= ARY_MAX_SIZE
    ensures min <= NewCapa(capa, min) <= ARY_MAX_SIZE
    ensures min < NewCapa(capa, min) <==> min < ARY_MAX_SIZE - 1
  {}

  //----------------------------------------------------------------------------
  // Parts of sequences

  lemma TailSlice(s: seq<Value>, o: nat, i: nat, n: nat)
    requires o + i + n <= |s|
    ensures s[o..][i..i + n] == s[o + i..o + i + n]
  {}

  lemma PrefixSlice(s: seq<Value>, m: nat, i: nat, n: nat)
    requires i + n <= m <= |s|
    ensures s[..m][i..i + n] == s[i..i + n]
  {}

  lemma DropSlice(s: seq<Value>, o: nat, len: nat, n: nat)
    requires o + len <= |s| && n <= len
    ensures s[o..o + len][n..] == s[o + n..o + len]
  {}

  /** What lies behind overwritten memory is as it was. */
  lemma Behind(t: seq<Value>, s: seq<Value>, k: nat, vs: seq<Value>, len: nat)
    requires k + len <= |s| && |vs| <= len && t == s[..k] + vs + s[k + |vs|..]
    ensures |t| == |s| && t[k + |vs|..k + len] == s[k..k + len][|vs|..]
  {}

  lemma Inside(t: seq<Value>, s: seq<Value>, k: nat, vs: seq<Value>)
    requires k + |vs| <= |s| && t == s[..k] + vs + s[k + |vs|..]
    ensures |t| == |s| && t[k..k + |vs|] == vs
  {}

  lemma WriteOne(t: seq<Value>, s: seq<Value>, len: nat, i: nat, v: Value)
    requires i < len <= |s| && t == s[..i] + [v] + s[i + 1..]
    ensures |t| == |s| && t[..len] == s[..len][i := v]
  {}
}
