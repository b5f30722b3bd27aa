/**
 * The array objects and the buffers allocated for them, and the steps the operations of
 * array.c are made of.  `Visible` is all that Ruby code can see: the contents of every array.
 * Each step says what becomes of it, also where it writes into a shared buffer.
 */
module ArrayHeap {
  import opened ArrayState

  /** What Ruby code sees of one array. */
  datatype View = View(elements: seq<Value>, frozen: bool)

  type Views = map<RArray, View>

  class Heap {
    /** The objects that exist and the buffers that are allocated. */
    ghost var arrays: set<RArray>
    ghost var live: set<array<Value>>

    constructor ()
      ensures arrays == {} && live == {} && Valid()
    {
      arrays, live := {}, {};
    }

    ghost function Snap(): Cells
      reads this`arrays, arrays
    {
      map a | a in arrays :: Cell(a.st, a.frozen)
    }

    ghost predicate Holds(pending: RArray?)
      reads this, arrays
    {
      Inv(Snap(), live, pending)
    }

    ghost predicate Valid()
      reads this, arrays
    {
      Holds(null)
    }

    ghost function Visible(): Views
      reads *
    {
      map a | a in arrays && !a.hidden :: View(a.Contents(), a.frozen)
    }

    /** Nobody else sees the memory behind a's pointer. */
    ghost predicate Exclusive(a: RArray)
      reads a, if a.st.Shared? then {a.st.root} else {}
    {
      a.st.Embedded? || a.st.Owned? || (a.st.Shared? && a.st.root.st.Root? && a.st.root.st.num == 1)
    }

    twostate predicate Grows()
      reads this
    {
      fresh(arrays - old(arrays)) && fresh(live - old(live))
    }

    //--------------------------------------------------------------------------
    // Memory

    /** A new buffer of n elements that starts with vs. */
    method Alloc(n: nat, vs: seq<Value>) returns (b: array<Value>)
      requires |vs| <= n
      modifies this`live
      ensures fresh(b) && b.Length == n && b[..|vs|] == vs && live == old(live) + {b}
      ensures Visible() == old(Visible())
    {
      b := new Value[n];
      forall j | 0 <= j < |vs| { b[j] := vs[j]; }
      live := live + {b};
    }

    method Free(b: array<Value>)
      requires b in live
      modifies this`live
      ensures live == old(live) - {b} && Visible() == old(Visible())
    {
      live := live - {b};
    }

    /** The elements i .. i+n of allocated memory. */
    method Fetch(b: array<Value>, i: nat, n: nat) returns (vs: seq<Value>)
      requires b in live && i + n <= b.Length
      ensures vs == b[i..i + n]
    {
      vs := b[i..i + n];
    }

    //--------------------------------------------------------------------------
    // References to roots

    /** `rb_ary_decrement_share`. */
    method DecrementShare(r: RArray)
      requires r in arrays && r.st.Root? && Holds(r)
      modifies this, r`st
      ensures Valid() && arrays <= old(arrays) && live <= old(live)
      ensures Visible() == old(Visible())
      ensures r.st.Root? && r.st.buf == old(r.st).buf && r.st.len == old(r.st).len && (r !in arrays ==> r.hidden)
      ensures forall b :: b in old(arrays) && b != r ==> b in arrays
    {
      hide Inv, Visible;
      RootCount(Snap(), live, r, r);
      var num := r.st.num - 1;
      if num == 0 {
        Recycle(r);
      } else {
        SetCount(r, num);
      }
    }

    /** The root is freed, with its buffer unless that was taken over. */
    method Recycle(r: RArray)
      requires r in arrays && r.st.Root? && Holds(r) && r.st.num == 1
      modifies this
      ensures Valid() && arrays == old(arrays) - {r} && live <= old(live) && Visible() == old(Visible()) && r.hidden
    {
      hide Inv;
      ghost var m: Cells, l := Snap(), live;
      Recycled(m, live, r);
      if r.st.OwnsHeap() {
        OwnerLive(m, live, r, r);
        Free(r.st.buf);
      }
      assert live == l - BufferOf(m[r].st);
      arrays := arrays - {r};
      assert Snap() == m - {r};
    }

    method SetCount(r: RArray, num: nat)
      requires r in arrays && r.st.Root? && Holds(r) && r.st.num == num + 1 && num > 0
      modifies r`st
      ensures Valid() && r.st == old(r.st.(num := num)) && Visible() == old(Visible())
    {
      hide Inv;
      ghost var m: Cells := Snap();
      if r.st.embed { TakenOver(m, live, r); }
      Dropped(m, live, r);
      r.st := r.st.(num := num);
      assert Snap() == m[r := Cell(m[r].st.(num := m[r].st.num - 1), m[r].frozen)];
    }

    /** `rb_ary_increment_share`. */
    method IncrementShare(r: RArray)
      requires r in arrays && r.st.Root? && Valid()
      modifies r`st
      ensures Holds(r) && r.st == old(r.st.(num := r.st.num + 1))
      ensures Visible() == old(Visible())
    {
      hide Inv;
      ghost var m: Cells := Snap();
      Counted(m, live, r);
      RootCount(m, live, null, r);
      if r.st.num >= 0 {
        r.st := r.st.(num := r.st.num + 1);
      }
      assert Snap() == m[r := Cell(m[r].st.(num := m[r].st.num + 1), m[r].frozen)];
    }

    /** What the invariant says of one array. */
    lemma Facts(a: RArray)
      requires Valid() && a in arrays
      ensures a.st.Fits() && (a.hidden ==> a.st.Root?)
      ensures a.st.Root? ==> a.frozen && 1 <= a.st.num && !a.st.embed
      ensures a.st.Shared? ==> a.st.root in arrays && a.st.root.st.Root? && a.st.root.st.buf == a.st.buf
                               && a.st.root.st.len == a.st.buf.Length && a.st.root != a && !a.st.root.st.embed
      ensures !a.st.Embedded? ==> a.st.buf in live
    {
      hide Sharers, OwnedBuffers, SoleOwners;
      var m := Snap();
      assert m[a] == Cell(a.st, a.frozen);
      assert CellOk(m, a, null);
      if a.st.Shared? {
        assert CellOk(m, a.st.root, null);
        OwnerLive(m, live, null, a.st.root);
      } else if !a.st.Embedded? {
        OwnerLive(m, live, null, a);
      }
    }

    /** Only a sees the buffer it may write to. */
    lemma SeenByOne(a: RArray)
      requires Valid() && a in arrays && !a.st.Embedded? && Exclusive(a)
      ensures a.st.buf in live && forall b :: b in arrays && !b.hidden && b != a ==> !b.st.Uses(a.st.buf)
    {
      hide Inv;
      var m := Snap();
      if a.st.Owned? {
        SoleUser(m, live, a);
        assert forall b :: b in arrays ==> m[b].st == b.st;
      } else {
        Facts(a);
        Occupied(m, live, a);
        assert forall b :: b in arrays ==> m[b].st == b.st;
      }
    }

    //--------------------------------------------------------------------------
    // rb_ary_modify

    /** A shared array gets storage of its own. */
    method Detach(a: RArray, s: Storage, ghost l: set<array<Value>>)
      requires a in arrays && !a.hidden && a.st.Shared? && Private(s) && s.Fits() && Inv(Snap(), l, null)
      requires live == l + BufferOf(s) && l !! BufferOf(s)
      modifies a`st
      ensures a.st == s && Holds(old(a.st.root))
      ensures Visible() == old(Visible())[a := View(a.Contents(), a.frozen)]
      ensures a.Contents() == old(a.Contents()) ==> Visible() == old(Visible())
    {
      hide Inv;
      ghost var m: Cells := Snap();
      a.st := s;
      Unshared(m, l, a, Cell(a.st, a.frozen));
      assert Snap() == m[a := Cell(a.st, a.frozen)];
    }

    /** The three slots of the object, with what happens to be behind the elements. */
    function Slots(vs: seq<Value>): (s: seq<Value>)
      requires |vs| <= EMBED_LEN_MAX
      ensures |s| == EMBED_LEN_MAX && s[..|vs|] == vs
    {
      vs + seq(EMBED_LEN_MAX - |vs|, _ => Nil)
    }

    /** A few elements go back into the object. */
    method ModifyEmbed(a: RArray)
      requires Valid() && a in arrays && a.st.Shared? && a.st.len <= EMBED_LEN_MAX
      modifies this, arrays
      ensures Valid() && a in arrays && a.st.Embedded? && Grows() && Visible() == old(Visible())
              && a.st.len == old(a.st.len)
    {
      hide Inv, Visible;
      Facts(a);
      var r, len := a.st.root, a.st.len;
      var vs := Fetch(a.st.buf, a.st.off, len);
      Detach(a, Embedded(Slots(vs), len), live);
      DecrementShare(r);
    }

    /** A copy of the window. */
    method ModifyCopy(a: RArray)
      requires Valid() && a in arrays && a.st.Shared?
      modifies this, arrays
      ensures Valid() && a in arrays && a.st.Owned? && Grows() && Visible() == old(Visible())
              && a.st.len == old(a.st.len) == a.st.capa
    {
      hide Inv, Visible;
      Facts(a);
      ghost var l := live;
      var r, len := a.st.root, a.st.len;
      var vs := Fetch(a.st.buf, a.st.off, len);
      var ptr := Alloc(len, vs);
      Detach(a, Owned(ptr, len, len), l);
      DecrementShare(r);
    }

    /** The buffer of a root nobody else refers to is taken over, the elements moved to its
        beginning. */
    method ModifyTakeOver(a: RArray)
      requires Valid() && a in arrays && !a.hidden && a.st.Shared? && a.st.root.st.Root? && a.st.root.st.num == 1
      modifies this, arrays, a.st.buf
      ensures Valid() && a in arrays && a.st.Owned? && Grows() && Visible() == old(Visible())
              && a.st.len == old(a.st.len)
      ensures a.st.capa == old(a.st.root.st.len)
    {
      hide Inv, Visible;
      Facts(a);
      VisibleAt(a);
      var r, len := a.st.root, a.st.len;
      ghost var v: Views := Visible();
      var vs := Fetch(a.st.buf, a.st.off, len);
      WriteBuffer(a, 0, vs);
      ghost var w: Views := Visible();
      assert a.st.buf[..len] == vs;
      Seize(a);
      Overwrite(v, a, w[a], View(vs, a.frozen));
      DecrementShare(r);
    }

    method Seize(a: RArray)
      requires Valid() && a in arrays && !a.hidden && a.st.Shared? && a.st.root.st.Root? && a.st.root.st.num == 1
               && a.st.len <= a.st.buf.Length
      modifies a`st, a.st.root`st
      ensures old(a.st.root) in arrays && old(a.st.root).st.Root? && Holds(old(a.st.root)) && a.st.Owned?
              && a.st.len == old(a.st.len)
      ensures a.st.capa == old(a.st.root.st.len)
      ensures Visible() == old(Visible())[a := View(old(a.st.buf)[..old(a.st.len)], a.frozen)]
    {
      hide Inv;
      Facts(a);
      ghost var m: Cells := Snap();
      Occupied(m, live, a);
      var r := a.st.root;
      a.st := Owned(r.st.buf, a.st.len, r.st.len);
      r.st := r.st.(embed := true);
      Stolen(m, live, a, Cell(a.st, a.frozen));
      assert Snap() == m[a := Cell(a.st, a.frozen)][r := Cell(m[r].st.(embed := true), m[r].frozen)];
    }

    lemma Overwrite(v: Views, a: RArray, x: View, y: View)
      ensures v[a := x][a := y] == v[a := y]
      ensures a in v && v[a] == y ==> v[a := y] == v
    {}

    /** The capacity an array has once it shares nothing. */
    ghost function OwnCapa(a: RArray): nat
      reads a, if a.st.Shared? then {a.st.root} else {}
    {
      if !a.st.Shared? then a.st.Capa()
      else if a.st.len <= EMBED_LEN_MAX then EMBED_LEN_MAX
      else if a.st.root.st.Root? && a.st.root.st.num == 1 && a.st.len > a.st.root.st.len / 2 then a.st.root.st.len
      else a.st.len
    }

    /** `rb_ary_modify` of an array that is not frozen: afterwards it shares nothing. */
    method Modify(a: RArray)
      requires Valid() && a in arrays && !a.hidden && !a.frozen
      modifies this, arrays, live
      ensures Valid() && a in arrays && Private(a.st) && Grows() && Visible() == old(Visible())
              && a.st.len == old(a.st.len)
      ensures (old(!a.st.Shared?) ==> a.st == old(a.st)) && a.st.Capa() == old(OwnCapa(a))
    {
      hide Inv, Visible;
      Facts(a);
      if a.st.Shared? {
        if a.st.len <= EMBED_LEN_MAX {
          ModifyEmbed(a);
        } else if a.st.root.st.num == 1 && a.st.len > a.st.root.st.len / 2 {
          ModifyTakeOver(a);
        } else {
          ModifyCopy(a);
        }
      }
    }

    //--------------------------------------------------------------------------
    // Storage, length, pointer and elements of one array

    /** Other storage of its own for an array that shares nothing; its buffer is freed. */
    method Settle(a: RArray, s: Storage, ghost l: set<array<Value>>)
      requires a in arrays && !a.hidden && Private(a.st) && Private(s) && s.Fits() && Inv(Snap(), l, null)
      requires live == l + BufferOf(s) && l !! BufferOf(s)
      modifies this`live, a`st
      ensures a.st == s && Valid() && live <= old(live)
      ensures Visible() == old(Visible())[a := View(a.Contents(), a.frozen)]
      ensures a.Contents() == old(a.Contents()) ==> Visible() == old(Visible())
    {
      hide Inv, Visible;
      if a.st.Owned? {
        OwnerLive(Snap(), l, null, a);
        Free(a.st.buf);
      }
      SetStorage(a, s, l);
    }

    method SetStorage(a: RArray, s: Storage, ghost l: set<array<Value>>)
      requires a in arrays && !a.hidden && Private(a.st) && Private(s) && s.Fits() && Inv(Snap(), l, null)
      requires live == l - BufferOf(a.st) + BufferOf(s) && BufferOf(s) !! (l - BufferOf(a.st))
      modifies a`st
      ensures a.st == s && Valid()
      ensures Visible() == old(Visible())[a := View(a.Contents(), a.frozen)]
      ensures a.Contents() == old(a.Contents()) ==> Visible() == old(Visible())
    {
      hide Inv;
      ghost var m: Cells := Snap();
      a.st := s;
      Replaced(m, l, null, a, Cell(a.st, a.frozen));
      assert Snap() == m[a := Cell(a.st, a.frozen)];
    }

    /** `ary_resize_capa`. */
    method ResizeCapa(a: RArray, capacity: nat)
      requires Valid() && a in arrays && Private(a.st) && a.st.len <= capacity
      modifies this`live, a`st
      ensures Valid() && Private(a.st) && Grows() && Visible() == old(Visible())
      ensures a.st.len == old(a.st.len)
      ensures if capacity > EMBED_LEN_MAX then a.st.Owned? && a.st.capa == capacity else a.st.Embedded?
    {
      hide Inv, Visible;
      Facts(a);
      ghost var l := live;
      var len := a.st.len;
      if capacity > EMBED_LEN_MAX {
        if a.st.Embedded? {
          var ptr := Alloc(capacity, a.st.slots[..len]);
          Settle(a, Owned(ptr, len, capacity), l);
        } else {
          Realloc(a, capacity);
        }
      } else if !a.st.Embedded? {
        var vs := Fetch(a.st.buf, 0, len);
        Settle(a, Embedded(Slots(vs), len), l);
      }
    }

    /** `SIZED_REALLOC_N` of an array's buffer. */
    method Realloc(a: RArray, capacity: nat)
      requires Valid() && a in arrays && a.st.Owned? && a.st.len <= capacity
      modifies this`live, a`st
      ensures Valid() && Grows() && Visible() == old(Visible()) && a.st.len == old(a.st.len)
      ensures a.st.Owned? && a.st.capa == capacity
    {
      hide Inv, Visible;
      Facts(a);
      ghost var l := live;
      var len := a.st.len;
      var vs := Fetch(a.st.buf, 0, if capacity < a.st.capa then capacity else a.st.capa);
      var ptr := Alloc(capacity, vs);
      assert ptr[..len] == vs[..len] == a.Contents();
      Settle(a, Owned(ptr, len, capacity), l);
    }

    /** `ary_double_capa`. */
    method DoubleCapa(a: RArray, min: nat)
      requires Valid() && a in arrays && Private(a.st) && a.st.len <= min <= ARY_MAX_SIZE
      modifies this`live, a`st
      ensures Valid() && Private(a.st) && Grows() && Visible() == old(Visible())
      ensures a.st.len == old(a.st.len) && min <= a.st.Capa() && (min < a.st.Capa() <==> min < ARY_MAX_SIZE - 1)
    {
      hide Inv, Visible;
      NewCapaRoom(a.st.Capa(), min);
      ResizeCapa(a, NewCapa(a.st.Capa(), min));
    }

    lemma VisibleAt(a: RArray)
      requires a in arrays && !a.hidden
      ensures a in Visible() && Visible()[a] == View(a.Contents(), a.frozen)
    {}

    /** `ARY_SET_LEN`. */
    method SetLen(a: RArray, n: nat)
      requires Valid() && a in arrays && !a.hidden && !a.st.Root? && n <= |a.Room()|
      modifies a`st
      ensures Valid() && a.st == old(a.st).WithLen(n) && a.Room() == old(a.Room())
      ensures Visible() == old(Visible())[a := View(a.Room()[..n], a.frozen)]
    {
      hide Inv;
      Facts(a);
      ghost var m: Cells := Snap();
      a.st := a.st.WithLen(n);
      assert Snap() == m[a := Cell(a.st, a.frozen)];
      Resized(m, live, a, Cell(a.st, a.frozen));
    }

    /** `rb_obj_freeze`. */
    method Freeze(a: RArray)
      requires Valid() && a in arrays && !a.hidden
      modifies a`frozen
      ensures Valid() && a.frozen
      ensures Visible() == old(Visible())[a := View(a.Contents(), true)]
    {
      hide Inv;
      ghost var m: Cells := Snap();
      a.frozen := true;
      assert Snap() == m[a := Cell(a.st, true)];
      Frozen(m, live, a);
    }

    /** `ARY_SET_PTR` and `ARY_SET_LEN` of an array that shares a buffer. */
    method SetWindow(a: RArray, i: nat, e: nat)
      requires Valid() && a in arrays && !a.hidden && a.st.Shared? && i <= e <= a.st.buf.Length
      modifies a`st
      ensures Valid() && a.st == old(a.st).(off := i, len := e - i)
      ensures Visible() == old(Visible())[a := View(a.st.buf[i..e], a.frozen)]
    {
      hide Inv;
      ghost var m: Cells := Snap();
      a.st := a.st.(off := i, len := e - i);
      TailSlice(a.st.buf[..], i, 0, e - i);
      assert a.Contents() == a.st.buf[i..e];
      assert Snap() == m[a := Cell(a.st, a.frozen)];
      Resized(m, live, a, Cell(a.st, a.frozen));
    }

    /** Writes into the buffer of an array nobody else sees. */
    method WriteBuffer(a: RArray, k: nat, vs: seq<Value>)
      requires Valid() && a in arrays && !a.hidden && (a.st.Owned? || a.st.Shared?) && Exclusive(a)
               && k + |vs| <= a.st.buf.Length
      modifies a.st.buf
      ensures Valid() && a.st.buf[..] == old(a.st.buf[..k] + vs + a.st.buf[k + |vs|..])
      ensures Visible() == old(Visible())[a := View(a.Contents(), a.frozen)]
    {
      hide Inv;
      SeenByOne(a);
      var b := a.st.buf;
      forall j | 0 <= j < |vs| { b[k + j] := vs[j]; }
    }

    method WriteSlots(a: RArray, i: nat, vs: seq<Value>)
      requires Valid() && a in arrays && a.st.Embedded? && i + |vs| <= |a.st.slots|
      modifies a`st
      ensures Valid() && a.st == old(a.st.(slots := a.st.slots[..i] + vs + a.st.slots[i + |vs|..]))
      ensures Visible() == old(Visible())[a := View(a.Contents(), a.frozen)]
    {
      hide Inv;
      Facts(a);
      ghost var m: Cells := Snap();
      a.st := a.st.(slots := a.st.slots[..i] + vs + a.st.slots[i + |vs|..]);
      assert Snap() == m[a := Cell(a.st, a.frozen)];
      Resized(m, live, a, Cell(a.st, a.frozen));
    }

    /** Writes through the pointer of an array whose memory nobody else sees. */
    method Write(a: RArray, i: nat, vs: seq<Value>)
      requires Valid() && a in arrays && !a.hidden && !a.st.Root? && Exclusive(a) && i + |vs| <= |a.Room()|
      modifies a`st, if a.st.Embedded? then {} else {a.st.buf}
      ensures Valid() && a.Room() == old(a.Room()[..i] + vs + a.Room()[i + |vs|..])
      ensures if a.st.Embedded? then old(a.st).Embedded? && a.st.len == old(a.st.len) else a.st == old(a.st)
      ensures Visible() == old(Visible())[a := View(a.Contents(), a.frozen)]
    {
      hide Inv, Visible;
      Facts(a);
      if a.st.Embedded? {
        WriteSlots(a, i, vs);
      } else {
        WriteBuffer(a, (if a.st.Shared? then a.st.off else 0) + i, vs);
      }
    }

    /** The elements i .. i+n behind the pointer. */
    method Read(a: RArray, i: nat, n: nat) returns (vs: seq<Value>)
      requires Valid() && a in arrays && i + n <= |a.Room()|
      ensures vs == a.Room()[i..i + n]
    {
      hide Inv;
      Facts(a);
      match a.st
      case Embedded(s, _) => vs := s[i..i + n];
      case Owned(b, _, _) => vs := Fetch(b, i, n);
      case Shared(b, o, _, _) =>
        vs := Fetch(b, o + i, n);
        TailSlice(b[..], o, i, n);
      case Root(b, _, _, _) => vs := Fetch(b, i, n);
    }

    //--------------------------------------------------------------------------
    // Roots and new arrays

    /** A root is made of an array that is not frozen; the unused end of the buffer is
        cleared. */
    method MakeHiddenRoot(a: RArray) returns (r: RArray)
      requires Valid() && a in arrays && a.st.Owned? && !a.frozen
      modifies this`arrays, a`st, a.st.buf
      ensures Valid() && fresh(r) && arrays == old(arrays) + {r} && Visible() == old(Visible())
      ensures r.hidden && r.st == Root(old(a.st.buf), old(a.st.capa), 1, false)
      ensures a.st == Shared(old(a.st.buf), 0, old(a.st.len), r) && a.frozen == old(a.frozen)
    {
      hide Inv, Visible;
      Facts(a);
      VisibleAt(a);
      ghost var v: Views := Visible();
      WriteBuffer(a, a.st.len, seq(a.st.capa - a.st.len, _ => Nil));
      assert a.Contents() == old(a.Contents());
      Overwrite(v, a, v[a], v[a]);
      r := HandOver(a);
    }

    method HandOver(a: RArray) returns (r: RArray)
      requires Valid() && a in arrays && a.st.Owned? && !a.frozen
      modifies this`arrays, a`st
      ensures Valid() && fresh(r) && arrays == old(arrays) + {r} && Visible() == old(Visible())
      ensures r.hidden && r.st == Root(old(a.st.buf), old(a.st.capa), 1, false)
      ensures a.st == Shared(old(a.st.buf), 0, old(a.st.len), r) && a.frozen == old(a.frozen)
    {
      hide Inv;
      Facts(a);
      ghost var m: Cells := Snap();
      r := new RArray(true, Root(a.st.buf, a.st.capa, 1, false), true);
      a.st := Shared(a.st.buf, 0, a.st.len, r);
      arrays := arrays + {r};
      assert Snap() == m[a := Cell(a.st, a.frozen)][r := Cell(r.st, true)];
      Rooted(m, live, a, r, Cell(a.st, a.frozen), Cell(r.st, true));
      assert a.Contents() == old(a.Contents());
    }

    /** A frozen array becomes a root itself, with no room to spare. */
    method MakeFrozenRoot(a: RArray)
      requires Valid() && a in arrays && a.st.Owned? && a.frozen
      modifies this`live, a`st
      ensures Valid() && Grows() && Visible() == old(Visible())
      ensures a.st.Root? && a.st.len == old(a.st.len)
    {
      hide Inv, Visible;
      Facts(a);
      ghost var l := live;
      var capacity := a.st.len;
      var b := a.st.buf;
      if a.st.capa > capacity {
        var vs := Fetch(b, 0, capacity);
        b := Alloc(capacity, vs);
        Free(a.st.buf);
      }
      assert b[..capacity] == old(a.st.buf[..capacity]);
      BecomeRoot(a, b, l);
    }

    method BecomeRoot(a: RArray, b: array<Value>, ghost l: set<array<Value>>)
      requires a in arrays && a.st.Owned? && a.st.Fits() && a.frozen && b.Length == a.st.len
               && b[..] == a.st.buf[..a.st.len]
      requires Inv(Snap(), l, null) && live == l - {a.st.buf} + {b} && b !in l - {a.st.buf}
      modifies a`st
      ensures Valid() && a.st == Root(b, b.Length, 1, false) && Visible() == old(Visible())
    {
      hide Inv;
      ghost var m: Cells := Snap();
      a.st := Root(b, b.Length, 1, false);
      assert Snap() == m[a := Cell(a.st, a.frozen)];
      SelfRooted(m, l, a, Cell(a.st, a.frozen));
      assert a.Contents() == old(a.Contents());
    }

    /** `ary_make_shared`. */
    method MakeShared(a: RArray) returns (r: RArray)
      requires Valid() && a in arrays && !a.st.Embedded?
      modifies this, a`st, a.st.buf
      ensures Valid() && Grows() && old(arrays) <= arrays && Visible() == old(Visible())
      ensures r in arrays && r.st.Root? && a.st.len == old(a.st.len) && a.frozen == old(a.frozen)
      ensures (a.st.PointsTo(r) || (r == a && a.frozen)) && r.st.buf == a.st.buf
      ensures old(a.st.Owned? && !a.frozen) ==>
        fresh(r) && a.st == Shared(old(a.st.buf), 0, old(a.st.len), r)
        && r.st == Root(old(a.st.buf), old(a.st.capa), 1, false)
      ensures old(a.st.Shared?) ==> a.st == old(a.st)
    {
      hide Inv, Visible;
      Facts(a);
      if a.st.Shared? {
        r := a.st.root;
      } else if a.st.Root? {
        r := a;
      } else if a.frozen {
        MakeFrozenRoot(a);
        r := a;
      } else {
        r := MakeHiddenRoot(a);
      }
    }

    /** A new array with storage of its own. */
    method NewArray(s: Storage, ghost l: set<array<Value>>) returns (a: RArray)
      requires Private(s) && s.Fits() && Inv(Snap(), l, null) && live == l + BufferOf(s) && BufferOf(s) !! l
      modifies this`arrays
      ensures Valid() && fresh(a) && !a.hidden && !a.frozen && a.st == s && arrays == old(arrays) + {a}
      ensures Visible() == old(Visible())[a := View(a.Contents(), false)]
    {
      hide Inv, RArray.Contents;
      ghost var m: Cells := Snap();
      a := new RArray(false, s, false);
      arrays := arrays + {a};
      assert Snap() == m[a := Cell(s, false)];
      Added(m, l, a, Cell(s, false));
    }

    /** An array without memory of its own begins to show part of a root's buffer, whose
        count includes it already. */
    method Attach(a: RArray, r: RArray, i: nat, n: nat, ghost l: set<array<Value>>)
      requires a in arrays && !a.hidden && Private(a.st) && r in arrays && r.st.Root? && !r.st.embed
               && i + n <= r.st.buf.Length
      requires Inv(Snap(), l, r) && live == l - BufferOf(a.st)
      modifies a`st
      ensures Valid() && a.st == Shared(r.st.buf, i, n, r)
      ensures Visible() == old(Visible())[a := View(r.st.buf[i..i + n], a.frozen)]
    {
      hide Inv;
      ghost var m: Cells := Snap();
      a.st := Shared(r.st.buf, i, n, r);
      assert Snap() == m[a := Cell(a.st, a.frozen)];
      Attached(m, l, r, a, Cell(a.st, a.frozen));
      assert a.Contents() == r.st.buf[i..i + n];
    }
  }
}
