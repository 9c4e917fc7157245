/** Bytes, 16- and 32-bit words and their little-endian layout. */
module Words {
  type byte = b: int | 0 <= b < 256
  type Bytes = seq<byte>
  type u16 = w: int | 0 <= w < 0x1_0000
  type u32 = w: int | 0 <= w < 0x1_0000_0000

  const WORD := 0x1_0000_0000

  datatype Option<+T> = None | Some(value: T)

  function Le16(w: u16): Bytes {
    [w % 256, w / 256]
  }

  function FromLe16(lo: byte, hi: byte): u16 {
    lo as int + 0x100 * hi as int
  }

  function Le32(w: u32): (b: Bytes)
    ensures |b| == 4
  {
    [w % 256, w / 0x100 % 256, w / 0x1_0000 % 256, w / 0x100_0000]
  }

  function FromLe32(b: Bytes): u32
    requires |b| == 4
  {
    b[0] as int + 0x100 * b[1] as int + 0x1_0000 * b[2] as int + 0x100_0000 * b[3] as int
  }

  lemma Le32RoundTrip(w: u32)
    ensures |Le32(w)| == 4 && FromLe32(Le32(w)) == w
  {
    assert w / 0x1_0000 == (w / 0x100) / 0x100;
    assert w / 0x100_0000 == (w / 0x1_0000) / 0x100;
  }

  /** The pieces of a list of byte strings, one after the other. */
  function Concat(pieces: seq<Bytes>): Bytes {
    if pieces == [] then [] else pieces[0] + Concat(pieces[1..])
  }

  lemma Assoc<T>(a: seq<T>, b: seq<T>, c: seq<T>)
    ensures a + (b + c) == (a + b) + c
  {
  }

  lemma {:induction false} ConcatAppend(a: seq<Bytes>, b: seq<Bytes>)
    ensures Concat(a + b) == Concat(a) + Concat(b)
  {
    var ab := a + b;
    if a == [] {
      assert ab == b;
    } else {
      assert ab[0] == a[0] && ab[1..] == a[1..] + b;
      ConcatAppend(a[1..], b);
      Assoc(a[0], Concat(a[1..]), Concat(b));
    }
  }
}
