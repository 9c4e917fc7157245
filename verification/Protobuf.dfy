/** Protobuf messages with integer and byte-string fields: the writers of the proxy, and a reader. */
module Protobuf {
  import opened Words
  import Varint

  datatype Field = Int(num: nat, value: nat) | Blob(num: nat, data: Bytes)

  function Key(num: nat, wire: nat): nat {
    8 * num + wire
  }

  function EncodeField(f: Field): (b: Bytes)
    ensures b != []
  {
    match f
    case Int(num, v) => Varint.Encode(Key(num, 0)) + Varint.Encode(v)
    case Blob(num, d) => Varint.Encode(Key(num, 2)) + (Varint.Encode(|d|) + d)
  }

  function EncodeFields(fs: seq<Field>): Bytes {
    if fs == [] then [] else EncodeField(fs[0]) + EncodeFields(fs[1..])
  }

  lemma {:induction false} EncodeAppend(a: seq<Field>, b: seq<Field>)
    ensures EncodeFields(a + b) == EncodeFields(a) + EncodeFields(b)
  {
    hide EncodeField;
    if a == [] {
      assert a + b == b;
    } else {
      assert (a + b)[0] == a[0] && (a + b)[1..] == a[1..] + b;
      EncodeAppend(a[1..], b);
      Assoc(EncodeField(a[0]), EncodeFields(a[1..]), EncodeFields(b));
    }
  }

  /** A field at the start of `b`, and the bytes that it takes. */
  datatype Taken = Taken(field: Field, size: nat) | Nothing

  /** One field, with integers of at most ten bytes. */
  function TakeField(b: Bytes): (r: Taken)
    ensures r.Taken? ==> 0 < r.size <= |b|
  {
    match Varint.Decode(b, 10)
    case Value(key, n) => TakeValue(key, b[n..], n)
    case _ => Nothing
  }

  function TakeValue(key: nat, b: Bytes, n: nat): (r: Taken)
    ensures r.Taken? ==> n <= r.size <= n + |b|
  {
    match Varint.Decode(b, 10)
    case Value(v, m) =>
      if key % 8 == 0 then Taken(Int(key / 8, v), n + m)
      else if key % 8 == 2 && m + v <= |b| then Taken(Blob(key / 8, b[m..m + v]), n + m + v)
      else Nothing
    case _ => Nothing
  }

  function DecodeFields(b: Bytes): Option<seq<Field>>
    decreases |b|
  {
    if b == [] then Some([])
    else
      match TakeField(b)
      case Nothing => None
      case Taken(f, size) =>
        match DecodeFields(b[size..])
        case None => None
        case Some(fs) => Some([f] + fs)
  }

  /** A field whose integers have at most ten bytes. */
  predicate FieldOk(f: Field) {
    match f
    case Int(num, v) => |Varint.Encode(Key(num, 0))| <= 10 && |Varint.Encode(v)| <= 10
    case Blob(num, d) => |Varint.Encode(Key(num, 2))| <= 10 && |Varint.Encode(|d|)| <= 10
  }

  lemma TakeEncoded(f: Field, more: Bytes)
    requires FieldOk(f)
    ensures TakeField(EncodeField(f) + more) == Taken(f, |EncodeField(f)|)
  {
    hide Varint.Encode, Varint.Decode;
    var b := EncodeField(f) + more;
    match f
    case Int(num, v) =>
      var key := Varint.Encode(Key(num, 0));
      assert b == key + (Varint.Encode(v) + more);
      Varint.DecodeEncode(Key(num, 0), 10, Varint.Encode(v) + more);
      assert b[|key|..] == Varint.Encode(v) + more;
      Varint.DecodeEncode(v, 10, more);
    case Blob(num, d) =>
      var key, length := Varint.Encode(Key(num, 2)), Varint.Encode(|d|);
      assert b == key + (length + (d + more));
      Varint.DecodeEncode(Key(num, 2), 10, length + (d + more));
      assert b[|key|..] == length + (d + more);
      Varint.DecodeEncode(|d|, 10, d + more);
      assert (length + (d + more))[|length|..|length| + |d|] == d;
  }

  /** Reading inverts writing, for each list of fields. */
  lemma {:induction false} DecodeEncode(fs: seq<Field>)
    requires forall i :: 0 <= i < |fs| ==> FieldOk(fs[i])
    ensures DecodeFields(EncodeFields(fs)) == Some(fs)
    decreases |fs|
  {
    hide EncodeField, TakeField, FieldOk;
    if fs != [] {
      var more := EncodeFields(fs[1..]);
      assert FieldOk(fs[0]);
      TakeEncoded(fs[0], more);
      assert (EncodeField(fs[0]) + more)[|EncodeField(fs[0])|..] == more;
      DecodeEncode(fs[1..]);
      assert fs == [fs[0]] + fs[1..];
    }
  }

  // ---- The writers ----

  /** Zero, the default of proto3, has no field. */
  function NonZero(num: nat, v: nat): seq<Field> {
    if v == 0 then [] else [Int(num, v)]
  }

  function NonEmpty(num: nat, d: Bytes): seq<Field> {
    if d == [] then [] else [Blob(num, d)]
  }

  lemma EncodeOne(f: Field)
    ensures EncodeFields([f]) == EncodeField(f)
  {
    hide EncodeField;
    assert [f][1..] == [];
  }

  /** pb_uint() */
  method PbUint(num: nat, v: nat) returns (p: Bytes)
    ensures p == EncodeFields(NonZero(num, v))
  {
    if v == 0 {
      return [];
    }
    var key := Varint.PbVarint(Key(num, 0));
    var value := Varint.PbVarint(v);
    EncodeOne(Int(num, v));
    p := key + value;
  }

  /** pb_key() and pb_varint() of the length, then the bytes. */
  method PbBlob(num: nat, d: Bytes) returns (p: Bytes)
    ensures p == EncodeField(Blob(num, d))
  {
    var key := Varint.PbVarint(Key(num, 2));
    var length := Varint.PbVarint(|d|);
    Assoc(key, length, d);
    p := key + length + d;
  }

  /** pb_bytes() */
  method PbBytes(num: nat, d: Bytes) returns (p: Bytes)
    ensures p == EncodeFields(NonEmpty(num, d))
  {
    if d == [] {
      return [];
    }
    p := PbBlob(num, d);
    EncodeOne(Blob(num, d));
  }
}
