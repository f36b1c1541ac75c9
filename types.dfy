/**
 * Field types, typed field values and the fixed-width binary field format.
 * An INT is a 4-byte big-endian two's-complement integer; a STRING is a
 * 4-byte length prefix followed by a 128-byte region whose first `length`
 * bytes are the content and whose rest is padding.
 */
module Types {
  import opened Wrappers

  /** An unsigned 8-bit byte. */
  newtype byte = x: int | 0 <= x < 0x100

  /** The maximum content length of a STRING field. */
  const STRING_LEN: nat := 128

  const TWO_31: int := 0x8000_0000
  const TWO_32: int := 0x1_0000_0000

  /** A Java `int`. */
  predicate IsInt32(v: int) {
    -TWO_31 <= v < TWO_31
  }

  /** A field's static type. */
  datatype Type = IntType | StringType {

    /** `getLen`: the number of bytes a field of this type occupies. */
    function Len(): (n: nat)
      ensures n >= 4
    {
      match this
      case IntType => 4
      case StringType => STRING_LEN + 4
    }

    /** The enum constant's name, as Java's `toString` prints it. */
    function Name(): string {
      match this
      case IntType => "INT_TYPE"
      case StringType => "STRING_TYPE"
    }
  }

  /** The fixed lengths of the two types. */
  lemma TypeLengths()
    ensures IntType.Len() == 4
    ensures StringType.Len() == STRING_LEN + 4 == 132
  {
  }

  /** A typed field value; a string's content is kept as raw bytes. */
  datatype Field = IntField(value: int) | StringField(content: seq<byte>, maxSize: nat) {
    function FieldType(): Type {
      match this
      case IntField(_) => IntType
      case StringField(_, _) => StringType
    }
  }

  // ---------------------------------------------------------------------
  // 32-bit big-endian integers (`DataInputStream.readInt`)

  /** The unsigned value of four bytes, most significant first. */
  function BigEndian(b: seq<byte>): (u: nat)
    requires |b| == 4
    ensures u < TWO_32
  {
    ((b[0] as int * 0x100 + b[1] as int) * 0x100 + b[2] as int) * 0x100 + b[3] as int
  }

  /** Two's-complement reading of a 32-bit unsigned value. */
  function ToSigned(u: nat): (v: int)
    requires u < TWO_32
    ensures IsInt32(v)
    ensures v % TWO_32 == u
  {
    if u < TWO_31 then u else u - TWO_32
  }

  /** `readInt`: one big-endian int and the bytes after it; EOF before 4 bytes fails. */
  function ReadInt(s: seq<byte>): (r: Result<(int, seq<byte>)>)
    ensures r.Err? <==> |s| < 4
    ensures r.Err? ==> r.error == ParseError
    ensures r.Ok? ==> IsInt32(r.value.0) && r.value.1 == s[4..]
  {
    if |s| < 4 then Err(ParseError) else Ok((ToSigned(BigEndian(s[..4])), s[4..]))
  }

  /** The four big-endian bytes of a Java int (the format `readInt` reads). */
  function WriteInt(v: int): (b: seq<byte>)
    requires IsInt32(v)
    ensures |b| == 4
  {
    var u := if v < 0 then v + TWO_32 else v;
    var u1 := u / 0x100;
    var u2 := u1 / 0x100;
    [(u2 / 0x100) as byte, (u2 % 0x100) as byte, (u1 % 0x100) as byte, (u % 0x100) as byte]
  }

  lemma {:induction false} BigEndianOfWriteInt(v: int)
    requires IsInt32(v)
    ensures BigEndian(WriteInt(v)) == if v < 0 then v + TWO_32 else v
  {
    var u := if v < 0 then v + TWO_32 else v;
    var u1 := u / 0x100;
    var u2 := u1 / 0x100;
    var b := WriteInt(v);
    assert u == u1 * 0x100 + u % 0x100;
    assert u1 == u2 * 0x100 + u1 % 0x100;
    assert u2 == (u2 / 0x100) * 0x100 + u2 % 0x100;
    assert u2 / 0x100 < 0x100;
    assert b[0] as int == u2 / 0x100;
    assert b[1] as int == u2 % 0x100;
    assert b[2] as int == u1 % 0x100;
    assert b[3] as int == u % 0x100;
  }

  /** Writing an int and reading it back yields the same int and the untouched rest. */
  lemma {:induction false} ReadWriteInt(v: int, rest: seq<byte>)
    requires IsInt32(v)
    ensures ReadInt(WriteInt(v) + rest) == Ok((v, rest))
  {
    var s := WriteInt(v) + rest;
    assert s[..4] == WriteInt(v);
    assert s[4..] == rest;
    BigEndianOfWriteInt(v);
  }

  // ---------------------------------------------------------------------
  // `Type.parse`

  function Zeros(n: nat): (z: seq<byte>)
    ensures |z| == n && forall i :: 0 <= i < n ==> z[i] == 0
  {
    seq(n, _ => 0)
  }

  function Min(a: int, b: int): int {
    if a <= b then a else b
  }

  /**
   * The length prefix a STRING parse reads lies within the string region.
   * (A negative prefix or one above STRING_LEN hits library edge cases
   * that are not modelled.)
   */
  predicate PrefixInRange(t: Type, s: seq<byte>) {
    t == StringType && |s| >= 4 ==> 0 <= ToSigned(BigEndian(s[..4])) <= STRING_LEN
  }

  /**
   * `t.parse(dis)` over the stream's remaining bytes `s`: the field read and
   * the bytes left in the stream. For a STRING, `read` fills the content
   * array with the bytes available (the rest of the fresh array stays zero)
   * and `skipBytes` stops at the end of the stream.
   */
  function Parse(t: Type, s: seq<byte>): (r: Result<(Field, seq<byte>)>)
    requires PrefixInRange(t, s)
    ensures r.Err? <==> |s| < 4
    ensures r.Err? ==> r.error == ParseError
    ensures r.Ok? ==> r.value.0.FieldType() == t
    ensures r.Ok? ==> r.value.0.IntField? || r.value.0.maxSize == STRING_LEN
  {
    match ReadInt(s)
    case Err(e) => Err(e)
    case Ok((n, rest)) =>
      match t
      case IntType => Ok((IntField(n), rest))
      case StringType =>
        var got := Min(n, |rest|);
        var content := rest[..got] + Zeros(n - got);
        Ok((StringField(content, STRING_LEN), rest[Min(STRING_LEN, |rest|)..]))
  }

  /** A parse of at least `Len()` bytes consumes exactly `Len()` bytes. */
  lemma ParseConsumesLen(t: Type, s: seq<byte>)
    requires PrefixInRange(t, s)
    requires |s| >= t.Len()
    ensures Parse(t, s).Ok? && Parse(t, s).value.1 == s[t.Len()..]
  {
  }

  /** A string's content is exactly as long as its length prefix. */
  lemma ParseStringContentLength(s: seq<byte>)
    requires PrefixInRange(StringType, s)
    requires |s| >= 4
    ensures |Parse(StringType, s).value.0.content| == ReadInt(s).value.0
  {
  }

  // ---------------------------------------------------------------------
  // The encoding Parse reads, as its inverse

  /** A field the fixed-width format can hold. */
  predicate Encodable(f: Field) {
    match f
    case IntField(v) => IsInt32(v)
    case StringField(c, _) => |c| <= STRING_LEN
  }

  /** The fixed-width encoding of a field: `Len()` bytes. */
  function Serialize(f: Field): (b: seq<byte>)
    requires Encodable(f)
    ensures |b| == f.FieldType().Len()
  {
    match f
    case IntField(v) => WriteInt(v)
    case StringField(c, _) => WriteInt(|c|) + c + Zeros(STRING_LEN - |c|)
  }

  /**
   * Round trip: parsing a serialized field gives the field back (a string
   * with max size STRING_LEN) and leaves the following bytes in the stream.
   */
  lemma {:induction false} ParseSerialize(f: Field, rest: seq<byte>)
    requires Encodable(f)
    ensures PrefixInRange(f.FieldType(), Serialize(f) + rest)
    ensures Parse(f.FieldType(), Serialize(f) + rest) ==
      Ok((if f.IntField? then f else StringField(f.content, STRING_LEN), rest))
  {
    match f
    case IntField(v) =>
      ReadWriteInt(v, rest);
    case StringField(c, _) =>
      var tail := c + Zeros(STRING_LEN - |c|) + rest;
      assert Serialize(f) + rest == WriteInt(|c|) + tail;
      ReadWriteInt(|c|, tail);
      assert (WriteInt(|c|) + tail)[..4] == WriteInt(|c|);
      var s := Serialize(f) + rest;
      assert ReadInt(s) == Ok((|c|, tail));
      assert tail[..|c|] + Zeros(0) == c;
      assert tail[Min(STRING_LEN, |tail|)..] == rest;
  }
}
