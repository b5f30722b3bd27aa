/**
 * The operations of array.c, each with its effect on plain sequences: the array it is called
 * on changes as its documentation says, and no other array changes in the eyes of Ruby code.
 */
module ArrayOps {
  import opened ArrayState
  import opened ArrayHeap

  /** The exceptions the operations raise. */
  /** The exceptions; NoRoom is a write behind the end of a buffer. */
  datatype Error = NoError | FrozenError | IndexError | ArgumentError | NoRoom

  ghost predicate Ready(h: Heap, a: RArray)
    reads h, h.arrays
  {
    h.Valid() && a in h.arrays && !a.hidden
  }

  /** Memory behind the pointer that a may write to. */
  ghost predicate HasRoom(h: Heap, a: RArray, n: nat)
    reads h, h.arrays, a, if a.st.Shared? then {a.st.root} else {}, if a.st.Embedded? then {} else {a.st.buf}
  {
    h.Exclusive(a) && !a.st.Root? && n <= |a.Room()|
  }

  /** What an array that shares nothing has behind its pointer. */
  lemma PrivateRoom(h: Heap, a: RArray)
    requires Ready(h, a) && Private(a.st)
    ensures HasRoom(h, a, a.st.Capa())
  {
    hide Inv;
    h.Facts(a);
  }

  /** `ary_ensure_room_for_push`: room for more elements behind the last one, in a shared
      buffer if nobody else sees it. */
  method EnsureRoomForPush(h: Heap, a: RArray, add: nat) returns (e: Error)
    requires Ready(h, a)
    modifies h, h.arrays, h.live
    ensures Ready(h, a) && h.Grows() && h.Visible() == old(h.Visible()) && a.st.len == old(a.st.len)
    ensures e == if a.st.len > ARY_MAX_SIZE - add then IndexError else if old(a.frozen) then FrozenError else NoError
    ensures e.NoError? ==> HasRoom(h, a, a.st.len + add)
  {
    hide Inv, Heap.Visible;
    h.Facts(a);
    var newLen := a.st.len + add;
    if a.st.len > ARY_MAX_SIZE - add { return IndexError; }
    if a.frozen { return FrozenError; }
    if a.st.Shared? && newLen > EMBED_LEN_MAX && a.st.root.st.num == 1 {
      if a.st.off + newLen <= a.st.root.st.len {
        return NoError;
      }
      h.Modify(a);
      if newLen > a.st.Capa() - a.st.Capa() / 64 {
        h.DoubleCapa(a, newLen);
      }
    } else {
      h.Modify(a);
      if newLen > a.st.Capa() {
        h.DoubleCapa(a, newLen);
      }
    }
    PrivateRoom(h, a);
    e := NoError;
  }

  /** `rb_ary_cat`, and `rb_ary_push` for one element. */
  method Cat(h: Heap, a: RArray, vs: seq<Value>) returns (e: Error)
    requires Ready(h, a)
    modifies h, h.arrays, h.live
    ensures Ready(h, a) && h.Grows()
    ensures e == if |old(a.Contents())| > ARY_MAX_SIZE - |vs| then IndexError else if old(a.frozen) then FrozenError
      else NoError
    ensures h.Visible() == if e.NoError? then old(h.Visible())[a := View(old(a.Contents()) + vs, false)]
      else old(h.Visible())
  {
    hide Inv, Heap.Visible;
    h.Facts(a);
    h.VisibleAt(a);
    ghost var v: Views := h.Visible();
    e := EnsureRoomForPush(h, a, |vs|);
    if e.NoError? {
      var oldLen := a.st.len;
      h.VisibleAt(a);
      ghost var was := a.Contents();
      h.Facts(a);
      h.Write(a, oldLen, vs);
      ghost var x := View(a.Contents(), a.frozen);
      h.SetLen(a, oldLen + |vs|);
      assert a.Room()[..oldLen + |vs|] == was + vs;
      h.Overwrite(v, a, x, View(was + vs, a.frozen));
    }
  }

  /** `rb_ary_new_from_values`. */
  method NewFromValues(h: Heap, vs: seq<Value>) returns (a: RArray)
    requires h.Valid() && |vs| <= ARY_MAX_SIZE
    modifies h
    ensures Ready(h, a) && fresh(a) && h.Grows() && old(h.arrays) <= h.arrays
    ensures h.Visible() == old(h.Visible())[a := View(vs, false)]
    ensures |vs| > EMBED_LEN_MAX ==> a.st.Owned? && a.st.len == a.st.capa == |vs|
  {
    hide Inv, Heap.Visible;
    ghost var l := h.live;
    if |vs| > EMBED_LEN_MAX {
      var ptr := h.Alloc(|vs|, vs);
      a := h.NewArray(Owned(ptr, |vs|, |vs|), l);
    } else {
      a := h.NewArray(Embedded(h.Slots(vs), |vs|), l);
    }
  }

  /** An array without memory of its own shows part of what another one shares. */
  method Show(h: Heap, c: RArray, a: RArray, i: nat, n: nat)
    requires Ready(h, c) && Ready(h, a) && c != a && c.st.Embedded? && (a.st.Shared? || a.st.Root?)
             && i + n <= |a.Contents()|
    modifies h.arrays
    ensures Ready(h, c) && Ready(h, a) && h.arrays == old(h.arrays) && h.live == old(h.live)
            && a.st.len == old(a.st.len)
    ensures (a.st.Shared? || a.st.Root?) && c.frozen == old(c.frozen)
    ensures h.Visible() == old(h.Visible())[c := View(old(a.Contents())[i..i + n], c.frozen)]
  {
    hide Inv, Heap.Visible;
    h.Facts(a);
    h.Facts(c);
    var r, o := a, i;
    if a.st.Shared? { r, o := a.st.root, a.st.off + i; }
    h.Facts(r);
    ghost var vs := a.Contents()[i..i + n];
    PrefixSlice(a.Room(), a.st.len, i, n);
    if a.st.Shared? { TailSlice(a.st.buf[..], a.st.off, i, n); }
    assert r.st.buf[o..o + n] == vs;
    h.IncrementShare(r);
    assert h.live == h.live - BufferOf(c.st);
    h.Attach(c, r, o, n, h.live);
  }

  /** `ary_make_partial`: part of an array, as a window of its buffer if it is long. */
  method Partial(h: Heap, a: RArray, offset: nat, len: nat) returns (r: RArray)
    requires Ready(h, a) && offset + len <= |a.Contents()|
    modifies h, h.arrays, h.live
    ensures Ready(h, a) && Ready(h, r) && fresh(r) && h.Grows() && old(h.arrays) <= h.arrays
            && a.st.len == old(a.st.len)
    ensures h.Visible() == old(h.Visible())[r := View(old(a.Contents())[offset..offset + len], false)]
  {
    hide Inv, Heap.Visible;
    h.Facts(a);
    if len <= EMBED_LEN_MAX {
      var vs := h.Read(a, offset, len);
      PrefixSlice(a.Room(), a.st.len, offset, len);
      r := h.NewArray(Embedded(h.Slots(vs), len), h.live);
    } else {
      h.VisibleAt(a);
      ghost var v: Views := h.Visible();
      r := h.NewArray(Embedded(h.Slots([]), 0), h.live);
      var root := h.MakeShared(a);
      h.VisibleAt(a);
      Show(h, r, a, offset, len);
      h.Overwrite(v, r, View([], false), View(old(a.Contents())[offset..offset + len], false));
    }
  }

  //----------------------------------------------------------------------------
  // Taking elements away

  function Slice(c: seq<Value>, beg: nat, len: nat): seq<Value>
    requires beg <= |c|
  {
    if beg + len <= |c| then c[beg..beg + len] else c[beg..]
  }

  /** `rb_ary_subseq`; null stands for nil. */
  method Subseq(h: Heap, a: RArray, beg: int, len: int) returns (r: RArray?)
    requires Ready(h, a)
    modifies h, h.arrays, h.live
    ensures Ready(h, a) && h.Grows() && old(h.arrays) <= h.arrays
    ensures r == null <==> beg > |old(a.Contents())| || beg < 0 || len < 0
    ensures r == null ==> h.Visible() == old(h.Visible())
    ensures r != null ==> Ready(h, r) && fresh(r)
                          && h.Visible() == old(h.Visible())[r := View(Slice(old(a.Contents()), beg, len), false)]
  {
    hide Inv, Heap.Visible;
    h.Facts(a);
    var alen := a.st.len;
    if beg > alen { return null; }
    if beg < 0 || len < 0 { return null; }
    var n := if alen < len || alen < beg + len then alen - beg else len;
    if n == 0 {
      assert Slice(a.Contents(), beg, len) == [];
      r := NewFromValues(h, []);
    } else {
      assert Slice(a.Contents(), beg, len) == a.Contents()[beg..beg + n];
      r := Partial(h, a, beg, n);
    }
  }

  /** `rb_ary_pop`. */
  method Pop(h: Heap, a: RArray) returns (e: Error, v: Value)
    requires Ready(h, a)
    modifies h, h.arrays, h.live
    ensures Ready(h, a) && h.Grows() && e == if old(a.frozen) then FrozenError else NoError
    ensures var c := old(a.Contents());
            if e != NoError || c == [] then v == Nil && h.Visible() == old(h.Visible())
            else v == c[|c| - 1] && h.Visible() == old(h.Visible())[a := View(c[..|c| - 1], false)]
  {
    hide Inv, Heap.Visible;
    h.Facts(a);
    h.VisibleAt(a);
    if a.frozen { return FrozenError, Nil; }
    var n := a.st.len;
    if n == 0 { return NoError, Nil; }
    if a.st.OwnsHeap() && n * 3 < a.st.Capa() && a.st.Capa() > ARY_DEFAULT_SIZE {
      h.ResizeCapa(a, n * 2);
      h.Facts(a);
      h.VisibleAt(a);
    }
    ghost var c := a.Contents();
    n := n - 1;
    h.SetLen(a, n);
    assert a.Room()[..n] == c[..n];
    var vs := h.Read(a, n, 1);
    e, v := NoError, vs[0];
  }

  /** An array of some length shows part of a buffer that no other array shows. */
  ghost predicate Alone(a: RArray, len: int, n: nat)
    reads a, if a.st.Shared? then {a.st.root} else {}
  {
    a.st.Shared? && a.st.len == len && a.st.root.st.Root? && a.st.root.st.num == 1
    && a.st.root.st.len == a.st.buf.Length == n
  }

  ghost function BufferLen(a: RArray): nat
    reads a
  {
    if a.st.Embedded? then EMBED_LEN_MAX else a.st.buf.Length
  }

  /** `rb_ary_shift`: the window of a long array moves on, and the element it leaves behind is
      cleared if nobody else sees it. */
  method Shift(h: Heap, a: RArray) returns (e: Error, v: Value)
    requires Ready(h, a)
    modifies h, h.arrays, h.live
    ensures Ready(h, a) && h.Grows() && e == if old(a.frozen) then FrozenError else NoError
    ensures var c := old(a.Contents());
            if e != NoError || c == [] then v == Nil && h.Visible() == old(h.Visible())
            else v == c[0] && h.Visible() == old(h.Visible())[a := View(c[1..], false)]
    ensures old(!a.frozen && a.st.Owned? && a.st.len >= ARY_DEFAULT_SIZE) ==>
      Alone(a, old(a.st.len) - 1, old(a.st.capa))
    ensures old(!a.frozen && a.st.len > 0 && Alone(a, a.st.len, BufferLen(a))) ==>
      Alone(a, old(a.st.len) - 1, old(BufferLen(a)))
  {
    hide Inv, Heap.Visible;
    h.Facts(a);
    var len := a.st.len;
    if a.frozen { return FrozenError, Nil; }
    if len == 0 { return NoError, Nil; }
    var vs := h.Read(a, 0, 1);
    if !a.st.Shared? && len < ARY_DEFAULT_SIZE {
      DropFront(h, a, 1);
    } else {
      ShiftWindow(h, a, 1);
    }
    e, v := NoError, vs[0];
  }

  /** The elements of a short array move down. */
  method DropFront(h: Heap, a: RArray, n: nat)
    requires Ready(h, a) && Private(a.st) && !a.frozen && n <= |a.Contents()|
    modifies h, h.arrays, h.live
    ensures Ready(h, a) && h.arrays == old(h.arrays) && h.live == old(h.live)
    ensures h.Visible() == old(h.Visible())[a := View(old(a.Contents())[n..], false)]
  {
    hide Inv, Heap.Visible;
    h.Facts(a);
    ghost var v: Views, c := h.Visible(), a.Contents();
    var len := a.st.len;
    var vs := h.Read(a, n, len - n);
    assert vs == c[n..];
    h.Write(a, 0, vs);
    ghost var x := View(a.Contents(), a.frozen);
    h.SetLen(a, len - n);
    assert a.Room()[..len - n] == vs;
    h.Overwrite(v, a, x, View(vs, false));
  }

  /** The pointer of a shared array, or of one that is made so, moves up. */
  method ShiftWindow(h: Heap, a: RArray, n: nat)
    requires Ready(h, a) && (a.st.Owned? || a.st.Shared?) && !a.frozen && n <= |a.Contents()|
    modifies h, h.arrays, h.live
    ensures Ready(h, a) && h.Grows() && old(h.arrays) <= h.arrays
    ensures old(a.st.Owned?) ==> Alone(a, old(a.st.len) - n, old(a.st.capa))
    ensures old(Alone(a, a.st.len, BufferLen(a))) ==> Alone(a, old(a.st.len) - n, old(BufferLen(a)))
    ensures h.Visible() == old(h.Visible())[a := View(old(a.Contents())[n..], false)]
  {
    hide Inv, Heap.Visible;
    h.Facts(a);
    h.VisibleAt(a);
    if a.st.Owned? {
      var r := h.MakeShared(a);
      h.VisibleAt(a);
      h.Facts(a);
      assert Alone(a, a.st.len, BufferLen(a));
    }
    MoveUp(h, a, n);
  }

  method MoveUp(h: Heap, a: RArray, n: nat)
    requires Ready(h, a) && a.st.Shared? && !a.frozen && n <= |a.Contents()|
    modifies h.arrays, h.live
    ensures Ready(h, a) && h.Grows() && h.arrays == old(h.arrays)
    ensures old(Alone(a, a.st.len, BufferLen(a))) ==> Alone(a, old(a.st.len) - n, old(BufferLen(a)))
    ensures h.Visible() == old(h.Visible())[a := View(old(a.Contents())[n..], false)]
  {
    hide Inv, Heap.Visible, RArray.Room, RArray.Contents;
    h.Facts(a);
    ghost var v: Views, c := h.Visible(), a.Contents();
    var len := a.st.len;
    ClearFront(h, a, n);
    ghost var x, d := View(a.Contents(), a.frozen), c[n..];
    var i, e := a.st.off + n, a.st.off + len;
    assert a.st.buf[i..e] == d;
    h.SetWindow(a, i, e);
    assert h.Visible() == v[a := x][a := View(d, false)];
    h.Overwrite(v, a, x, View(d, false));
  }

  method ClearFront(h: Heap, a: RArray, n: nat)
    requires Ready(h, a) && a.st.Shared? && n <= |a.Contents()|
    modifies a`st, a.st.buf
    ensures Ready(h, a) && a.st == old(a.st) && h.arrays == old(h.arrays) && h.live == old(h.live)
            && a.frozen == old(a.frozen)
    ensures a.st.Fits() && a.st.buf[a.st.off + n..a.st.off + a.st.len] == old(a.Contents())[n..]
    ensures h.Visible() == old(h.Visible())[a := View(a.Contents(), a.frozen)]
  {
    hide Inv, Heap.Visible, RArray.Room, RArray.Contents;
    h.Facts(a);
    h.VisibleAt(a);
    SharedContents(a);
    ghost var v: Views := h.Visible();
    h.Overwrite(v, a, v[a], v[a]);
    ghost var was := a.st.buf[..];
    DropSlice(was, a.st.off, a.st.len, n);
    if a.st.root.st.num == 1 {
      var nils := seq(n, _ => Nil);
      h.WriteBuffer(a, a.st.off, nils);
      Behind(a.st.buf[..], was, a.st.off, nils, a.st.len);
    }
  }

  /** `ary_take_first_or_last`: how many elements are taken. */
  function Taken(c: seq<Value>, n: int): (k: nat)
    ensures k <= |c|
  {
    if n > |c| then |c| else if n < 0 then 0 else n
  }

  /** `rb_ary_pop_m` with a count. */
  method PopMany(h: Heap, a: RArray, n: int) returns (e: Error, r: RArray?)
    requires Ready(h, a)
    modifies h, h.arrays, h.live
    ensures Ready(h, a) && h.Grows() && old(h.arrays) <= h.arrays
    ensures e == if old(a.frozen) then FrozenError else if n < 0 then ArgumentError else NoError
    ensures e != NoError ==> r == null && h.Visible() == old(h.Visible())
    ensures e == NoError ==> r != null && fresh(r) && Ready(h, r)
    ensures e == NoError ==> (
      var c := old(a.Contents());
      var k := |c| - Taken(c, n);
      h.Visible() == old(h.Visible())[r := View(c[k..], false)][a := View(c[..k], false)])
  {
    hide Inv, Heap.Visible;
    h.Facts(a);
    h.VisibleAt(a);
    if a.frozen { return FrozenError, null; }
    var len := a.st.len;
    if n <= len && n < 0 { return ArgumentError, null; }
    ghost var c := a.Contents();
    var k := len - if n > len then len else n;
    var p := Partial(h, a, k, len - k);
    h.VisibleAt(a);
    h.Facts(a);
    h.SetLen(a, k);
    assert a.Room()[..k] == c[..k] && c[k..len] == c[k..];
    e, r := NoError, p;
  }

  /** `rb_ary_shift_m` with a count. */
  method ShiftMany(h: Heap, a: RArray, n: int) returns (e: Error, r: RArray?)
    requires Ready(h, a)
    modifies h, h.arrays, h.live
    ensures Ready(h, a) && h.Grows() && old(h.arrays) <= h.arrays
    ensures e == if old(a.frozen) then FrozenError else if n < 0 then ArgumentError else NoError
    ensures e != NoError ==> r == null && h.Visible() == old(h.Visible())
    ensures e == NoError ==> r != null && fresh(r) && Ready(h, r)
    ensures e == NoError ==> (
      var c := old(a.Contents());
      var k := Taken(c, n);
      h.Visible() == old(h.Visible())[r := View(c[..k], false)][a := View(c[k..], false)])
  {
    hide Inv, Heap.Visible;
    h.Facts(a);
    h.VisibleAt(a);
    if a.frozen { return FrozenError, null; }
    var len := a.st.len;
    if n <= len && n < 0 { return ArgumentError, null; }
    var k := if n > len then len else n;
    var p := Partial(h, a, 0, k);
    h.VisibleAt(a);
    h.Facts(a);
    if !a.st.Shared? && a.st.len < ARY_DEFAULT_SIZE {
      DropFront(h, a, k);
    } else {
      ShiftWindow(h, a, k);
    }
    e, r := NoError, p;
  }

  //----------------------------------------------------------------------------
  // Replacing

  function Nils(n: nat): seq<Value> { seq(n, _ => Nil) }

  /** What storing at an index makes of a sequence. */
  function Stored(c: seq<Value>, i: nat, v: Value): seq<Value>
  {
    if i < |c| then c[i := v] else c + Nils(i - |c|) + [v]
  }

  /** `rb_ary_store`.  For the last index an array may have, the capacity that is asked for has no
      room: it is written behind the end unless the array had that capacity before. */
  method Store(h: Heap, a: RArray, idx: int, v: Value) returns (e: Error)
    requires Ready(h, a)
    modifies h, h.arrays, h.live
    ensures Ready(h, a) && h.Grows()
    ensures var n := |old(a.Contents())|;
            e == if idx + n < 0 || idx >= ARY_MAX_SIZE then IndexError
                 else if old(a.frozen) then FrozenError
                 else if old(h.OwnCapa(a)) <= idx == ARY_MAX_SIZE - 1 then NoRoom else NoError
    ensures e != NoError ==> h.Visible() == old(h.Visible())
    ensures e == NoError ==>
      var c := old(a.Contents());
      h.Visible() == old(h.Visible())[a := View(Stored(c, if idx < 0 then idx + |c| else idx, v), false)]
  {
    hide Inv, Heap.Visible;
    h.Facts(a);
    h.VisibleAt(a);
    var len := a.st.len;
    var i := idx;
    if idx < 0 {
      i := idx + len;
      if i < 0 { return IndexError; }
    } else if idx >= ARY_MAX_SIZE {
      return IndexError;
    }
    if a.frozen { return FrozenError; }
    h.Modify(a);
    h.Facts(a);
    if i >= a.st.Capa() {
      h.DoubleCapa(a, i);
    }
    if i >= a.st.Capa() { return NoRoom; }
    h.VisibleAt(a);
    PrivateRoom(h, a);
    StoreAt(h, a, i, v);
    e := NoError;
  }

  /** The write itself, after the gap was cleared. */
  method StoreAt(h: Heap, a: RArray, i: nat, v: Value)
    requires Ready(h, a) && Private(a.st) && i < a.st.Capa() && HasRoom(h, a, a.st.Capa()) && !a.frozen
    modifies h.arrays, h.live
    ensures Ready(h, a)
    ensures h.Visible() == old(h.Visible())[a := View(Stored(old(a.Contents()), i, v), false)]
  {
    hide Inv, Heap.Visible, RArray.Room;
    h.Facts(a);
    ghost var c, w: Views := a.Contents(), h.Visible();
    if i >= a.st.len {
      Extend(h, a, i);
      assert a.Contents()[i := v] == Stored(c, i, v);
    } else {
      h.VisibleAt(a);
      h.Overwrite(w, a, w[a], w[a]);
    }
    ghost var x, y := View(a.Contents(), false), View(Stored(c, i, v), false);
    StoreOver(h, a, i, v);
    assert h.Visible() == w[a := x][a := y];
    h.Overwrite(w, a, x, y);
  }

  method StoreOver(h: Heap, a: RArray, i: nat, v: Value)
    requires Ready(h, a) && Private(a.st) && i < |a.Contents()| && !a.frozen
    modifies h.arrays, h.live
    ensures Ready(h, a)
    ensures h.Visible() == old(h.Visible())[a := View(old(a.Contents())[i := v], false)]
  {
    hide Inv, Heap.Visible;
    h.Facts(a);
    ghost var was := a.Room();
    h.Write(a, i, [v]);
    WriteOne(a.Room(), was, a.st.len, i, v);
  }

  method Extend(h: Heap, a: RArray, i: nat)
    requires Ready(h, a) && Private(a.st) && |a.Contents()| <= i < a.st.Capa() && HasRoom(h, a, a.st.Capa())
             && !a.frozen
    modifies h.arrays, h.live
    ensures Ready(h, a) && Private(a.st) && !a.frozen && |a.Contents()| == i + 1
    ensures a.Contents()[..i] == old(a.Contents()) + Nils(i - |old(a.Contents())|)
    ensures h.Visible() == old(h.Visible())[a := View(a.Contents(), false)]
  {
    hide Inv, Heap.Visible;
    h.Facts(a);
    var len := a.st.len;
    ghost var c, w: Views := a.Contents(), h.Visible();
    h.VisibleAt(a);
    ghost var x := View(c, false);
    h.Overwrite(w, a, x, x);
    if i > len {
      h.Write(a, len, Nils(i - len + 1));
      x := View(a.Contents(), a.frozen);
      assert a.Room()[..i] == c + Nils(i - len);
    }
    h.Facts(a);
    h.Overwrite(w, a, x, View(a.Room()[..i + 1], a.frozen));
    h.SetLen(a, i + 1);
    assert a.Contents()[..i] == a.Room()[..i];
  }

  //----------------------------------------------------------------------------
  // Prepending

  /** A gap of n elements in front of what a shows. */
  ghost predicate Gap(h: Heap, a: RArray, n: nat, c: seq<Value>)
    reads h, h.arrays, a, if a.st.Shared? then {a.st.root} else {}, if a.st.Embedded? then {} else {a.st.buf}
  {
    HasRoom(h, a, n + |c|) && a.st.len == |c| && a.Room()[n..n + |c|] == c
  }

  /** The elements of a shared buffer that nobody else sees move up, so that room is left in
      front of them and some, a sixteenth of it, behind them. */
  method MakeRoom(h: Heap, a: RArray, argc: nat)
    requires Ready(h, a) && a.st.Shared? && h.Exclusive(a) && |a.Contents()| + argc <= a.st.buf.Length
    modifies h.arrays, h.live
    ensures Ready(h, a) && h.arrays == old(h.arrays) && h.live == old(h.live) && a.frozen == old(a.frozen)
    ensures Gap(h, a, argc, old(a.Contents()))
    ensures h.Visible() == old(h.Visible())[a := View(a.Contents(), a.frozen)]
  {
    hide Inv, Heap.Visible, RArray.Room, RArray.Contents;
    h.Facts(a);
    var room := a.st.root.st.len - (a.st.len + argc);
    room := room - room / 16;
    Relocate(h, a, argc + room);
    StepBack(h, a, argc);
    h.Overwrite(old(h.Visible()), a, View(old(a.Contents()), a.frozen), View(a.Contents(), a.frozen));
  }

  /** The elements move to another place of the buffer, and the pointer with them. */
  method Relocate(h: Heap, a: RArray, k: nat)
    requires Ready(h, a) && a.st.Shared? && h.Exclusive(a) && k + |a.Contents()| <= a.st.buf.Length
    modifies h.arrays, h.live
    ensures Ready(h, a) && h.arrays == old(h.arrays) && h.live == old(h.live) && a.frozen == old(a.frozen)
    ensures a.st == old(a.st).(off := k) && h.Exclusive(a)
    ensures a.Contents() == old(a.Contents()) && h.Visible() == old(h.Visible())[a := View(old(a.Contents()), a.frozen)]
  {
    hide Inv, Heap.Visible, RArray.Room, RArray.Contents;
    h.Facts(a);
    SharedContents(a);
    ghost var v: Views := h.Visible();
    var len, b := a.st.len, a.st.buf;
    var vs := h.Fetch(b, a.st.off, len);
    ghost var was := b[..];
    h.WriteBuffer(a, k, vs);
    Inside(b[..], was, k, vs);
    ghost var x := View(a.Contents(), a.frozen);
    var e := k + len;
    h.SetWindow(a, k, e);
    SharedContents(a);
    ghost var y := View(vs, a.frozen);
    assert h.Visible() == v[a := x][a := y];
    h.Overwrite(v, a, x, y);
  }

  lemma SharedContents(a: RArray)
    requires a.st.Shared? && a.st.Fits()
    ensures a.Contents() == a.st.buf[a.st.off..a.st.off + a.st.len]
  {
    TailSlice(a.st.buf[..], a.st.off, 0, a.st.len);
  }

  lemma SharedGap(h: Heap, a: RArray, n: nat, c: seq<Value>)
    requires a.st.Shared? && h.Exclusive(a) && a.st.len == |c| && a.st.off + n + |c| <= a.st.buf.Length
    requires a.st.buf[a.st.off + n..a.st.off + n + |c|] == c
    ensures Gap(h, a, n, c)
  {
    TailSlice(a.st.buf[..], a.st.off, n, |c|);
  }

  /** The path of `ary_ensure_room_for_unshift` that uses a shared buffer does not look
      whether the array is frozen. */
  ghost predicate Unchecked(a: RArray, argc: nat)
    reads a, if a.st.Shared? then {a.st.root} else {}
  {
    a.st.Shared? && a.st.root.st.Root? && a.st.root.st.num == 1 && a.st.root.st.len > a.st.len + argc
  }

  /** `ary_ensure_room_for_unshift`. */
  method EnsureRoomForUnshift(h: Heap, a: RArray, argc: nat) returns (e: Error)
    requires Ready(h, a)
    modifies h, h.arrays, h.live
    ensures Ready(h, a) && h.Grows() && a.frozen == old(a.frozen)
    ensures e == if |old(a.Contents())| > ARY_MAX_SIZE - argc then IndexError
                 else if old(a.frozen && !Unchecked(a, argc)) then FrozenError else NoError
    ensures e != NoError ==> h.Visible() == old(h.Visible())
    ensures e == NoError ==> Gap(h, a, argc, old(a.Contents()))
    ensures e == NoError ==> h.Visible() == old(h.Visible())[a := View(a.Contents(), a.frozen)]
  {
    hide Inv, Heap.Visible, Gap, RArray.Room;
    h.Facts(a);
    h.VisibleAt(a);
    var len := a.st.len;
    var newLen := len + argc;
    if len > ARY_MAX_SIZE - argc { return IndexError; }
    if a.st.Shared? && a.st.root.st.num == 1 && a.st.root.st.len > newLen {
      if a.st.off < argc {
        MakeRoom(h, a, argc);
      } else {
        StepBack(h, a, argc);
      }
      return NoError;
    }
    if a.frozen { return FrozenError; }
    ModifyAndMakeRoom(h, a, argc);
    e := NoError;
  }

  /** A long array that is prepended to is given a buffer with room on both sides. */
  method ModifyAndMakeRoom(h: Heap, a: RArray, argc: nat)
    requires Ready(h, a) && !a.frozen && |a.Contents()| + argc <= ARY_MAX_SIZE
    modifies h, h.arrays, h.live
    ensures Ready(h, a) && h.Grows() && !a.frozen
    ensures Gap(h, a, argc, old(a.Contents()))
    ensures h.Visible() == old(h.Visible())[a := View(a.Contents(), a.frozen)]
  {
    hide Inv, Heap.Visible, Gap, RArray.Room;
    h.Facts(a);
    h.VisibleAt(a);
    var newLen := a.st.len + argc;
    h.Modify(a);
    h.Facts(a);
    if a.st.Capa() - a.st.Capa() / 64 <= newLen {
      h.DoubleCapa(a, newLen);
    }
    h.VisibleAt(a);
    h.Facts(a);
    if newLen > ARY_DEFAULT_SIZE * 4 {
      var r := h.MakeShared(a);
      h.VisibleAt(a);
      MakeRoom(h, a, argc);
    } else {
      SlideUp(h, a, argc);
    }
  }

  /** There is room in front already. */
  method StepBack(h: Heap, a: RArray, argc: nat)
    requires Ready(h, a) && a.st.Shared? && h.Exclusive(a) && argc <= a.st.off
    modifies h.arrays, h.live
    ensures Ready(h, a) && h.arrays == old(h.arrays) && h.live == old(h.live) && a.frozen == old(a.frozen)
    ensures Gap(h, a, argc, old(a.Contents()))
    ensures h.Visible() == old(h.Visible())[a := View(a.Contents(), a.frozen)]
  {
    hide Inv, Heap.Visible, RArray.Room, RArray.Contents;
    h.Facts(a);
    SharedContents(a);
    ghost var c := a.Contents();
    h.SetWindow(a, a.st.off - argc, a.st.off - argc + a.st.len);
    SharedContents(a);
    SharedGap(h, a, argc, c);
  }

  /** The elements of an array that shares nothing move up. */
  method SlideUp(h: Heap, a: RArray, argc: nat)
    requires Ready(h, a) && Private(a.st) && |a.Contents()| + argc <= a.st.Capa()
    modifies h.arrays, h.live
    ensures Ready(h, a) && h.arrays == old(h.arrays) && h.live == old(h.live) && a.frozen == old(a.frozen)
    ensures Gap(h, a, argc, old(a.Contents()))
    ensures h.Visible() == old(h.Visible())[a := View(a.Contents(), a.frozen)]
  {
    hide Inv, Heap.Visible;
    h.Facts(a);
    PrivateRoom(h, a);
    var vs := h.Read(a, 0, a.st.len);
    h.Write(a, argc, vs);
    assert a.Room()[argc..argc + |vs|] == vs;
  }

  /** `rb_ary_unshift_m`. */
  method Unshift(h: Heap, a: RArray, vs: seq<Value>) returns (e: Error)
    requires Ready(h, a)
    modifies h, h.arrays, h.live
    ensures Ready(h, a) && h.Grows()
    ensures e == if vs != [] && |old(a.Contents())| > ARY_MAX_SIZE - |vs| then IndexError
                 else if old(a.frozen && (vs == [] || !Unchecked(a, |vs|))) then FrozenError else NoError
    ensures h.Visible() == if e.NoError? then old(h.Visible())[a := View(vs + old(a.Contents()), old(a.frozen))]
      else old(h.Visible())
  {
    hide Inv, Heap.Visible;
    h.VisibleAt(a);
    ghost var v: Views, c := h.Visible(), a.Contents();
    if vs == [] {
      h.Overwrite(v, a, v[a], v[a]);
      assert vs + c == c;
      return if a.frozen then FrozenError else NoError;
    }
    e := EnsureRoomForUnshift(h, a, |vs|);
    if e.NoError? {
      ghost var x := View(a.Contents(), a.frozen);
      Prepend(h, a, vs, c);
      h.Overwrite(v, a, x, View(vs + c, a.frozen));
    }
  }

  method Prepend(h: Heap, a: RArray, vs: seq<Value>, ghost c: seq<Value>)
    requires Ready(h, a) && Gap(h, a, |vs|, c)
    modifies h.arrays, h.live
    ensures Ready(h, a) && h.arrays == old(h.arrays) && h.live == old(h.live) && a.frozen == old(a.frozen)
    ensures h.Visible() == old(h.Visible())[a := View(vs + c, a.frozen)]
  {
    hide Inv, Heap.Visible;
    h.Facts(a);
    ghost var v: Views := h.Visible();
    var len := a.st.len;
    h.Write(a, 0, vs);
    ghost var x := View(a.Contents(), a.frozen);
    var m := len + |vs|;
    h.SetLen(a, m);
    ghost var y := View(vs + c, a.frozen);
    assert a.Room()[..m] == vs + c;
    assert h.Visible() == v[a := x][a := y];
    h.Overwrite(v, a, x, y);
  }

  /** A frozen array that changes: one of twenty elements that lost two at the front. */
  method PrependToFrozen(h: Heap, x: Value) returns (a: RArray, ghost before: View, e: Error)
    requires h.Valid()
    modifies h, h.arrays, h.live
    ensures Ready(h, a) && e == NoError && before.frozen
    ensures h.Visible()[a] == View([x] + before.elements, true)
  {
    hide Inv, Heap.Visible, RArray.Contents;
    a := NewFromValues(h, Nils(20));
    h.VisibleAt(a);
    var e1, v1 := Shift(h, a);
    h.VisibleAt(a);
    var e2, v2 := Shift(h, a);
    assert Alone(a, 18, 20);
    h.Freeze(a);
    h.VisibleAt(a);
    before := View(a.Contents(), a.frozen);
    h.Facts(a);
    e := Unshift(h, a, [x]);
  }

  //----------------------------------------------------------------------------
  // Replacing everything

  /** The memory of an array is given up. */
  method Release(h: Heap, c: RArray)
    requires Ready(h, c) && !c.frozen
    modifies h, h.arrays
    ensures Ready(h, c) && h.Grows() && h.arrays <= old(h.arrays) && c.st.Embedded? && c.frozen == old(c.frozen)
    ensures forall b :: b in old(h.arrays) && !b.hidden ==> b in h.arrays
    ensures forall b :: b in old(h.arrays) && b != c && !b.st.Root? ==> b.st == old(b.st)
    ensures forall b :: b in old(h.arrays) && b != c && old(b.st).Root? ==> b.st.Root?
    ensures h.Visible() == old(h.Visible())[c := View([], false)]
  {
    hide Inv, Heap.Visible;
    h.Facts(c);
    var empty := Embedded(h.Slots([]), 0);
    if c.st.Shared? {
      var r := c.st.root;
      h.Detach(c, empty, h.live);
      h.DecrementShare(r);
    } else {
      h.Settle(c, empty, h.live);
    }
  }

  /** `rb_ary_replace`. */
  method Replace(h: Heap, copy: RArray, orig: RArray) returns (e: Error)
    requires Ready(h, copy) && Ready(h, orig)
    modifies h, h.arrays, h.live
    ensures Ready(h, copy) && Ready(h, orig) && h.Grows()
    ensures e == if old(copy.frozen) then FrozenError else NoError
    ensures h.Visible() == if e.NoError? then old(h.Visible())[copy := View(old(orig.Contents()), false)]
      else old(h.Visible())
  {
    hide Inv, Heap.Visible;
    if copy.frozen { return FrozenError; }
    e := NoError;
    h.VisibleAt(orig);
    ghost var v: Views, c := h.Visible(), orig.Contents();
    if copy == orig {
      h.Overwrite(v, copy, v[copy], v[copy]);
      return;
    }
    h.Facts(orig);
    if orig.st.len <= EMBED_LEN_MAX {
      Release(h, copy);
      h.VisibleAt(orig);
      CopyFew(h, copy, orig);
      h.Overwrite(v, copy, View([], false), View(c, false));
    } else {
      ShareAll(h, copy, orig);
    }
  }

  /** Both arrays show the same elements of one buffer. */
  method ShareAll(h: Heap, copy: RArray, orig: RArray)
    requires Ready(h, copy) && Ready(h, orig) && copy != orig && !copy.frozen && |orig.Contents()| > EMBED_LEN_MAX
    modifies h, h.arrays, h.live
    ensures Ready(h, copy) && Ready(h, orig) && h.Grows()
    ensures h.Visible() == old(h.Visible())[copy := View(old(orig.Contents()), false)]
  {
    hide Inv, Heap.Visible, RArray.Room, RArray.Contents;
    h.Facts(orig);
    h.VisibleAt(orig);
    ghost var v: Views, c := h.Visible(), orig.Contents();
    var len := orig.st.len;
    var r := h.MakeShared(orig);
    h.VisibleAt(orig);
    Release(h, copy);
    h.VisibleAt(orig);
    Show(h, copy, orig, 0, len);
    assert c[0..len] == c;
    ghost var x, y := View([], false), View(c, false);
    assert h.Visible() == v[copy := x][copy := y];
    h.Overwrite(v, copy, x, y);
  }

  method CopyFew(h: Heap, copy: RArray, orig: RArray)
    requires Ready(h, copy) && Ready(h, orig) && copy != orig && copy.st.Embedded?
             && |orig.Contents()| <= EMBED_LEN_MAX && !copy.frozen
    modifies copy
    ensures Ready(h, copy) && Ready(h, orig)
    ensures h.Visible() == old(h.Visible())[copy := View(orig.Contents(), false)]
  {
    hide Inv, Heap.Visible;
    h.Facts(orig);
    h.Facts(copy);
    ghost var v: Views := h.Visible();
    var vs := h.Read(orig, 0, orig.st.len);
    h.WriteSlots(copy, 0, vs);
    ghost var x := View(copy.Contents(), copy.frozen);
    h.SetLen(copy, |vs|);
    assert copy.Room()[..|vs|] == vs == orig.Contents();
    h.Overwrite(v, copy, x, View(vs, false));
  }

  /** `rb_ary_clear`. */
  method Clear(h: Heap, a: RArray) returns (e: Error)
    requires Ready(h, a)
    modifies h, h.arrays, h.live
    ensures Ready(h, a) && h.Grows() && e == if old(a.frozen) then FrozenError else NoError
    ensures h.Visible() == if e.NoError? then old(h.Visible())[a := View([], false)] else old(h.Visible())
  {
    hide Inv, Heap.Visible;
    h.Facts(a);
    if a.frozen { return FrozenError; }
    e := NoError;
    if a.st.Shared? {
      Release(h, a);
    } else {
      h.SetLen(a, 0);
      if ARY_DEFAULT_SIZE * 2 < a.st.Capa() {
        h.ResizeCapa(a, ARY_DEFAULT_SIZE * 2);
      }
    }
  }
}
