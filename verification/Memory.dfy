/** Byte-addressed memory of the 68000: words are stored big-endian, and an
    address is usable only while some owner has it mapped. */
module Memory {
  import opened CInt

  type byte = b: int | 0 <= b < 256

  type Mem = map<int, byte>

  ghost predicate Mapped(m: Mem, a: int, n: int) {
    forall k :: a <= k < a + n ==> k in m
  }

  predicate WordAt(m: Mem, a: int) {
    a in m && a + 1 in m && a + 2 in m && a + 3 in m
  }

  function Load32(m: Mem, a: int): (w: int)
    requires WordAt(m, a)
    ensures 0 <= w < TWO_32
  {
    var b0: int, b1: int, b2: int, b3: int := m[a], m[a + 1], m[a + 2], m[a + 3];
    0x100_0000 * b0 + 0x1_0000 * b1 + 256 * b2 + b3
  }

  /** Stores `w` at `a`; exactly the four bytes of the word change. */
  function Store32(m: Mem, a: int, w: int): (r: Mem)
    requires WordAt(m, a)
    requires 0 <= w < TWO_32
    ensures r.Keys == m.Keys
    ensures Load32(r, a) == w
    ensures forall k :: k in m && !(a <= k < a + 4) ==> r[k] == m[k]
    ensures forall b {:trigger WordAt(r, b)} :: WordAt(m, b) ==> WordAt(r, b)
    ensures forall b {:trigger Load32(r, b)} ::
      WordAt(m, b) && (b + 4 <= a || a + 4 <= b) ==> Load32(r, b) == Load32(m, b)
  {
    var w2 := w / 256;
    var w1 := w2 / 256;
    var w0 := w1 / 256;
    m[a := w0][a + 1 := w1 - w0 * 256][a + 2 := w2 - w1 * 256][a + 3 := w - w2 * 256]
  }

  /** The first byte of a word is the most significant one. */
  lemma BigEndian(m: Mem, a: int, w: int)
    requires WordAt(m, a) && 0 <= w < TWO_32
    ensures var r := Store32(m, a, w);
      r[a] == w / 256 / 256 / 256 && r[a + 1] == w / 256 / 256 % 256 && r[a + 2] == w / 256 % 256 && r[a + 3] == w % 256
  {
    hide Load32;
  }

  ghost predicate WordIs(m: Mem, a: int, w: int) {
    WordAt(m, a) && Load32(m, a) == w
  }
}
