/** The variable-length integers of protobuf, least significant group of seven bits first. */
module Varint {
  import opened Words

  datatype Result = Value(value: nat, used: nat) | Incomplete | Bad

  function Encode(v: nat): (b: Bytes)
    ensures b != []
  {
    if v < 0x80 then [v] else [v % 0x80 + 0x80] + Encode(v / 0x80)
  }

  /** The value at the start of `b`, in at most `left` bytes. */
  function Decode(b: Bytes, left: nat): (r: Result)
    ensures r.Value? ==> 0 < r.used <= |b| && r.used <= left
    decreases |b|
  {
    if left == 0 then Bad
    else if b == [] then Incomplete
    else if b[0] < 0x80 then Value(b[0], 1)
    else
      match Decode(b[1..], left - 1)
      case Value(v, n) => Value(b[0] - 0x80 + 0x80 * v, n + 1)
      case other => other
  }

  /** What read_varint() reads at the start of `b`: a word of 32 bits. */
  function Read(b: Bytes): (r: Result)
    ensures r.Value? ==> r.value < WORD && 0 < r.used <= |b|
  {
    match Decode(b, 5)
    case Value(v, n) => Value(v % WORD, n)
    case other => other
  }

  /** Groups of seven bits that a value needs. */
  function Groups(v: nat): nat {
    if v < 0x80 then 1 else 1 + Groups(v / 0x80)
  }

  lemma {:induction false} EncodeLength(v: nat)
    ensures |Encode(v)| == Groups(v)
  {
    if v >= 0x80 {
      EncodeLength(v / 0x80);
    }
  }

  lemma WordGroups(v: u32)
    ensures |Encode(v)| <= 5
    ensures v < 0x80 ==> |Encode(v)| == 1
    ensures v < 0x4000 ==> |Encode(v)| <= 2
  {
    var a := v / 0x80;
    var b := a / 0x80;
    var c := b / 0x80;
    var d := c / 0x80;
    assert d < 0x10;
    EncodeLength(v);
    assert Groups(d) == 1;
    assert Groups(c) <= 2;
    assert Groups(b) <= 3;
    assert Groups(a) <= 4;
  }

  /** What is read from an encoded value and any bytes after it is the value. */
  lemma {:induction false} DecodeEncode(v: nat, left: nat, more: Bytes)
    requires |Encode(v)| <= left
    ensures Decode(Encode(v) + more, left) == Value(v, |Encode(v)|)
  {
    var e := Encode(v) + more;
    if v >= 0x80 {
      assert e[1..] == Encode(v / 0x80) + more;
      DecodeEncode(v / 0x80, left - 1, more);
    }
  }

  lemma ReadEncode(v: u32, more: Bytes)
    ensures Read(Encode(v) + more) == Value(v, |Encode(v)|)
  {
    WordGroups(v);
    DecodeEncode(v, 5, more);
  }

  /** More bytes do not change a value or an error, and fewer bytes than it used are incomplete. */
  lemma {:induction false} DecodeStable(b: Bytes, left: nat, n: nat)
    requires n <= |b|
    ensures Decode(b, left).Value? ==>
              Decode(b[..n], left) == if n < Decode(b, left).used then Incomplete else Decode(b, left)
    ensures !Decode(b[..n], left).Incomplete? ==> Decode(b, left) == Decode(b[..n], left)
    decreases |b|
  {
    if left > 0 && n > 0 {
      assert b[..n][0] == b[0] && b[..n][1..] == b[1..][..n - 1];
      DecodeStable(b[1..], left - 1, n - 1);
    }
  }

  lemma ReadStable(b: Bytes, n: nat)
    requires n <= |b|
    ensures Read(b).Value? ==> Read(b[..n]) == if n < Read(b).used then Incomplete else Read(b)
    ensures !Read(b[..n]).Incomplete? ==> Read(b) == Read(b[..n])
  {
    DecodeStable(b, 5, n);
  }

  /** pb_varint() */
  method PbVarint(v: nat) returns (p: Bytes)
    ensures p == Encode(v)
  {
    p := [];
    var w, more := v, true;
    while more
      invariant more ==> p + Encode(w) == Encode(v)
      invariant !more ==> w == 0 && p == Encode(v)
      decreases w, more
    {
      Assoc(p, [w % 0x80 + 0x80], Encode(w / 0x80));
      p := p + [w % 0x80 + if w > 0x7f then 0x80 else 0];
      w := w / 0x80;
      more := w != 0;
    }
  }

  function Shifted(low: nat, k: nat, r: Result): Result {
    match r
    case Value(v, n) => Value(low + Weight(k) * v, k + n)
    case other => other
  }

  function Weight(k: nat): nat {
    if k == 0 then 1 else if k == 1 then 0x80 else if k == 2 then 0x4000 else if k == 3 then 0x20_0000 else 0x1000_0000
  }

  lemma NextGroup(b: Bytes, low: nat, k: nat)
    requires k < 5 && b != [] && b[0] >= 0x80
    ensures k < 4 ==> Shifted(low, k, Decode(b, 5 - k)) ==
                      Shifted(low + Weight(k) * (b[0] - 0x80), k + 1, Decode(b[1..], 4 - k))
    ensures k == 4 ==> Shifted(low, k, Decode(b, 5 - k)) == Bad
  {
  }

  /** The top group has only four bits of the word; the shift drops the others. */
  lemma LastGroup(low: nat, k: nat, group: nat)
    requires k < 5 && low < Weight(k) && group < 0x80
    ensures low + group * Weight(k) % WORD < WORD
    ensures low + group * Weight(k) % WORD == (low + group * Weight(k)) % WORD
    ensures k < 4 ==> low + group * Weight(k) % WORD < Weight(k + 1)
    ensures k < 4 ==> group * Weight(k) % WORD == group * Weight(k)
  {
    if k == 4 {
      assert group * Weight(4) == group / 16 * WORD + group % 16 * Weight(4);
      assert group * Weight(4) % WORD == group % 16 * Weight(4);
      assert low + group * Weight(4) == group / 16 * WORD + (low + group % 16 * Weight(4));
    }
  }

  /** `b` starts with `k` groups of the sum `low`, and goes on with `rest`. */
  ghost predicate SoFar(b: Bytes, low: nat, k: nat, rest: Bytes) {
    if k < 5 then low < Weight(k) && Decode(b, 5) == Shifted(low, k, Decode(rest, 5 - k)) else Decode(b, 5) == Bad
  }

  lemma Begins(b: Bytes)
    ensures SoFar(b, 0, 0, b)
  {
  }

  lemma GoesOn(b: Bytes, low: nat, k: nat, rest: Bytes)
    requires SoFar(b, low, k, rest) && k < 5 && rest != [] && rest[0] >= 0x80
    ensures SoFar(b, low + (rest[0] - 0x80) * Weight(k) % WORD, k + 1, rest[1..])
  {
    LastGroup(low, k, rest[0] - 0x80);
    NextGroup(rest, low, k);
    hide Decode, Shifted, Weight;
  }

  lemma Ends(b: Bytes, low: nat, k: nat, rest: Bytes)
    requires SoFar(b, low, k, rest)
    ensures k >= 5 ==> Read(b) == Bad
    ensures k < 5 && rest == [] ==> Read(b) == Incomplete
    ensures k < 5 && rest != [] && rest[0] < 0x80 ==> Read(b) == Value(low + rest[0] * Weight(k) % WORD, k + 1)
  {
    if k < 5 && rest != [] && rest[0] < 0x80 {
      LastGroup(low, k, rest[0]);
      assert Weight(k) * rest[0] == rest[0] * Weight(k);
    }
  }

  /** read_varint(): the or of the shifted groups is their sum, as no bit is in two of them. */
  method ReadAt(p: Bytes, at: nat) returns (r: int, pos: nat, v: nat)
    requires at <= |p|
    ensures match Read(p[at..])
            case Value(value, used) => r == 1 && v == value && pos == at + used
            case Incomplete => r == 0
            case Bad => r == -1
  {
    hide Weight, SoFar, Read;
    pos, v := at, 0;
    ghost var b := p[at..];
    var k := 0;
    Begins(b);
    while k < 5
      invariant k <= 5 && pos == at + k <= |p|
      invariant SoFar(b, v, k, p[pos..])
      decreases 5 - k
    {
      Ends(b, v, k, p[pos..]);
      if pos >= |p| {
        return 0, pos, v;
      }
      var last := p[pos] < 0x80;
      if !last {
        GoesOn(b, v, k, p[pos..]);
        assert p[pos..][1..] == p[pos + 1..];
      }
      v := v + p[pos] % 0x80 * Weight(k) % WORD;
      pos := pos + 1;
      if last {
        return 1, pos, v;
      }
      k := k + 1;
    }
    Ends(b, v, k, p[pos..]);
    r := -1;
  }
}
