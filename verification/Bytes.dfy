/** Arrays of elements of `w` bytes, seen as bytes and as elements. */
module Bytes {
  import opened Memory
  import opened Ordering

  /** Where element `k` begins. */
  function Base(w: nat, k: int): int {
    k * w
  }

  /** Byte `o` of element `k`. */
  function Pos(w: nat, k: int, o: int): int {
    Base(w, k) + o
  }

  lemma BaseBelow(w: nat, j: int, k: int)
    requires j < k
    ensures Base(w, j) + w <= Base(w, k)
  {
    assert k * w == j * w + w + (k - j - 1) * w;
  }

  lemma BaseInRange(w: nat, n: nat, k: int)
    requires 0 <= k < n
    ensures 0 <= Base(w, k) && Base(w, k) + w <= n * w
  {
    BaseBelow(w, k, n);
  }

  lemma PosInjective(w: nat, k: int, o: int, k': int, o': int)
    requires 0 <= o < w && 0 <= o' < w && Pos(w, k, o) == Pos(w, k', o')
    ensures k == k' && o == o'
  {
    hide Base;
    if k < k' { BaseBelow(w, k, k'); }
    if k' < k { BaseBelow(w, k', k); }
  }

  function ElemAt(s: seq<byte>, w: nat, n: nat, k: int): (e: Elem)
    requires |s| == n * w && 0 <= k < n
    ensures |e| == w
  {
    BaseInRange(w, n, k);
    s[Base(w, k)..Base(w, k) + w]
  }

  /** The elements of a table of `n` elements. */
  function View(s: seq<byte>, w: nat, n: nat): (v: seq<Elem>)
    requires |s| == n * w
    ensures |v| == n && Elems(v, w)
  {
    seq(n, k requires 0 <= k < n => ElemAt(s, w, n, k))
  }

  function ByteAt(s: seq<byte>, w: nat, n: nat, k: int, o: int): byte
    requires |s| == n * w && 0 <= k < n && 0 <= o < w
  {
    BaseInRange(w, n, k);
    s[Pos(w, k, o)]
  }

  lemma ViewByte(s: seq<byte>, w: nat, n: nat, k: int, o: int)
    requires |s| == n * w && 0 <= k < n && 0 <= o < w
    ensures View(s, w, n)[k][o] == ByteAt(s, w, n, k, o)
  {
    hide Base;
    BaseInRange(w, n, k);
  }

  /** Byte `p` of element `k` after the first `o` bytes of `i` and `j` are exchanged. */
  function SwappedByte(s: seq<byte>, w: nat, n: nat, i: int, j: int, o: int, k: int, p: int): byte
    requires |s| == n * w && 0 <= i < n && 0 <= j < n && 0 <= k < n && 0 <= p < w
  {
    if p < o && k == i then ByteAt(s, w, n, j, p)
    else if p < o && k == j then ByteAt(s, w, n, i, p)
    else ByteAt(s, w, n, k, p)
  }

  /** Element tables are equal if all their bytes are. */
  lemma SameView(s: seq<byte>, w: nat, n: nat, v: seq<Elem>)
    requires |s| == n * w && |v| == n && Elems(v, w)
    requires forall k, o :: 0 <= k < n && 0 <= o < w ==> ByteAt(s, w, n, k, o) == v[k][o]
    ensures View(s, w, n) == v
  {
    hide View, ByteAt;
    forall k | 0 <= k < n ensures View(s, w, n)[k] == v[k] {
      forall o | 0 <= o < w ensures View(s, w, n)[k][o] == v[k][o] { ViewByte(s, w, n, k, o); }
    }
  }

  /** Storing one byte changes that byte of that element only. */
  lemma ByteStored(s: seq<byte>, s': seq<byte>, w: nat, n: nat, k: int, o: int, c: byte)
    requires |s| == n * w && 0 <= k < n && 0 <= o < w
    requires 0 <= Pos(w, k, o) < |s| && s' == s[Pos(w, k, o) := c]
    ensures forall k', o' :: 0 <= k' < n && 0 <= o' < w ==>
      ByteAt(s', w, n, k', o') == if k' == k && o' == o then c else ByteAt(s, w, n, k', o')
  {
    hide Base;
    forall k', o' | 0 <= k' < n && 0 <= o' < w
      ensures ByteAt(s', w, n, k', o') == if k' == k && o' == o then c else ByteAt(s, w, n, k', o')
    {
      BaseInRange(w, n, k');
      if Pos(w, k', o') == Pos(w, k, o) { PosInjective(w, k', o', k, o); }
    }
  }

  /** A table of elements in memory, with the loops that move its elements. */
  class Table {
    const w: nat             // bytes in an element
    const n: nat             // number of elements
    const data: array<byte>

    ghost predicate Valid()
      reads this
    {
      0 < w && data.Length == n * w
    }

    ghost function Contents(): (v: seq<Elem>)
      requires Valid()
      reads this, data
      ensures |v| == n && Elems(v, w)
    {
      View(data[..], w, n)
    }

    ghost function Byte(k: int, o: int): byte
      requires Valid() && 0 <= k < n && 0 <= o < w
      reads this, data
    {
      ByteAt(data[..], w, n, k, o)
    }

    constructor (w: nat, n: nat, data: array<byte>)
      requires 0 < w && data.Length == n * w
      ensures Valid() && this.w == w && this.n == n && this.data == data
    {
      this.w, this.n, this.data := w, n, data;
    }

    method GetByte(k: int, o: int) returns (c: byte)
      requires Valid() && 0 <= k < n && 0 <= o < w
      ensures c == Byte(k, o)
    {
      BaseInRange(w, n, k);
      c := data[k * w + o];
    }

    method SetByte(k: int, o: int, c: byte)
      requires Valid() && 0 <= k < n && 0 <= o < w
      modifies data
      ensures forall k', o' :: 0 <= k' < n && 0 <= o' < w ==>
        Byte(k', o') == if k' == k && o' == o then c else old(Byte(k', o'))
    {
      BaseInRange(w, n, k);
      ghost var s := data[..];
      data[k * w + o] := c;
      assert data[..] == s[Pos(w, k, o) := c];
      ByteStored(s, data[..], w, n, k, o, c);
    }

    /** A copy of element `k`. */
    method Get(k: int) returns (e: Elem)
      requires Valid() && 0 <= k < n
      ensures e == Contents()[k]
    {
      BaseInRange(w, n, k);
      e := data[k * w..k * w + w];
      assert e == data[..][Base(w, k)..Base(w, k) + w];
    }

    /** The SWAP macro: byte by byte. */
    method Swap(i: int, j: int)
      requires Valid() && 0 <= i < n && 0 <= j < n
      modifies data
      ensures Contents() == Swapped(old(Contents()), i, j)
    {
      hide ByteAt;
      ghost var s := data[..];
      var o := 0;
      while o < w
        invariant 0 <= o <= w
        invariant forall k, p :: 0 <= k < n && 0 <= p < w ==> Byte(k, p) == SwappedByte(s, w, n, i, j, o, k, p)
      {
        var tmp := GetByte(i, o);
        var other := GetByte(j, o);
        SetByte(i, o, other);
        SetByte(j, o, tmp);
        o := o + 1;
      }
      ghost var v := View(s, w, n);
      forall k, p | 0 <= k < n && 0 <= p < w ensures ByteAt(data[..], w, n, k, p) == Swapped(v, i, j)[k][p] {
        ViewByte(s, w, n, i, p);
        ViewByte(s, w, n, j, p);
        ViewByte(s, w, n, k, p);
        assert Byte(k, p) == ByteAt(data[..], w, n, k, p);
      }
      SameView(data[..], w, n, Swapped(v, i, j));
    }

    /** The innermost loop of the insertion: one byte of the elements t..r moves
        up by one element, the one of element `r` goes to element `t`. */
    method RotateColumn(t: int, r: int, o: int)
      requires Valid() && 0 <= t <= r < n && 0 <= o < w
      modifies data
      ensures forall k, p :: 0 <= k < n && 0 <= p < w && !(p == o && t <= k <= r) ==> Byte(k, p) == old(Byte(k, p))
      ensures Byte(t, o) == old(Byte(r, o)) && forall k :: t < k <= r ==> Byte(k, o) == old(Byte(k - 1, o))
    {
      hide ByteAt;
      var c := GetByte(r, o);
      ghost var s := data[..];
      var hi := r;
      var lo := r - 1;
      while lo >= t
        invariant t <= hi <= r && lo == hi - 1
        invariant forall k, p :: 0 <= k < n && 0 <= p < w && !(p == o && hi < k <= r) ==>
          Byte(k, p) == ByteAt(s, w, n, k, p)
        invariant forall k :: hi < k <= r ==> Byte(k, o) == ByteAt(s, w, n, k - 1, o)
        decreases hi
      {
        var b := GetByte(lo, o);
        SetByte(hi, o, b);
        hi := lo;
        lo := lo - 1;
      }
      SetByte(hi, o, c);
    }

    /** Moves element `r` down to place `t`. */
    method Rotate(t: int, r: int)
      requires Valid() && 0 <= t <= r < n
      modifies data
      ensures Contents() == Rotated(old(Contents()), t, r)
    {
      hide ByteAt;
      ghost var s := data[..];
      var o := w - 1;
      while o >= 0
        invariant -1 <= o < w
        invariant forall k, p :: 0 <= k < n && 0 <= p < w && !(o < p && t <= k <= r) ==>
          Byte(k, p) == ByteAt(s, w, n, k, p)
        invariant forall p :: o < p < w ==> Byte(t, p) == ByteAt(s, w, n, r, p)
        invariant forall k, p :: o < p < w && t < k <= r ==> Byte(k, p) == ByteAt(s, w, n, k - 1, p)
        decreases o
      {
        RotateColumn(t, r, o);
        o := o - 1;
      }
      ghost var v := View(s, w, n);
      forall k, p | 0 <= k < n && 0 <= p < w ensures ByteAt(data[..], w, n, k, p) == Rotated(v, t, r)[k][p] {
        var k0 := if k < t || r < k then k else if k == t then r else k - 1;
        ViewByte(s, w, n, k0, p);
        assert Byte(k, p) == ByteAt(data[..], w, n, k, p) == ByteAt(s, w, n, k0, p);
        assert Rotated(v, t, r)[k] == v[k0];
      }
      SameView(data[..], w, n, Rotated(v, t, r));
    }
  }
}
