/** The record side of the mapping: a typed record is a sequence of fields, each with a
    Go kind, the parsed `bigtable` tag, and a value slot. A nested struct field holds its
    own field sequence. This replaces the reflection (`reflect`, `fatih/structs`) that the
    decoders use to walk and set the fields of the caller's struct. */
module Fields {
  import opened BigEndian

  /** The Go integer kinds that the leaf codec reads with binary.Read. */
  datatype IntKind = Int | Uint | Int8 | Uint8 | Int16 | Uint16 | Int32 | Uint32 | Int64 | Uint64

  /** Bytes binary.Read consumes for the kind. Go's `int` and `uint` are read through an
      int64 / uint64 variable, so they always take 8 bytes. */
  function Width(k: IntKind): (w: nat)
    ensures w >= 1
    ensures w == 1 || w == 2 || w == 4 || w == 8
  {
    match k
    case Int8 | Uint8 => 1
    case Int16 | Uint16 => 2
    case Int32 | Uint32 => 4
    case Int | Uint | Int64 | Uint64 => 8
  }

  predicate IsSigned(k: IntKind) {
    k.Int? || k.Int8? || k.Int16? || k.Int32? || k.Int64?
  }

  /** The values a field of kind `k` can hold (64-bit platform for `int`/`uint`). */
  predicate InRange(k: IntKind, n: int) {
    if IsSigned(k) then -Half(Width(k)) <= n < Half(Width(k))
    else 0 <= n < Pow256(Width(k))
  }

  datatype FloatKind = Float32 | Float64

  function FloatWidth(k: FloatKind): nat {
    if k.Float32? then 4 else 8
  }

  /** A field's current value; the constructor is the field's reflect.Kind and never changes.
      Strings are Go strings, that is byte strings. A float is kept as its raw IEEE bit
      pattern. `OtherSlice` is a slice whose element type is not a byte; `Other` is any kind
      the codec has no rule for (pointer, map, interface, ...), named as Go prints it. */
  datatype Value =
    | ByteSlice(bytes: Bytes)
    | OtherSlice(elements: seq<int>)
    | Str(text: Bytes)
    | Boolean(b: bool)
    | Integer(kind: IntKind, n: int)
    | Float(fkind: FloatKind, bits: nat)
    | Struct(fields: seq<Field>)
    | Other(kindName: string)

  /** The parse of a field's `bigtable` tag: either the row-key marker or a column name. */
  datatype TagInfo = TagInfo(rowKey: bool, column: Bytes)

  /** One struct field. `tagged` is whether its `bigtable` tag string is non-empty; `info` is
      what the tag parser makes of that string (for an untagged field, of the empty string). */
  datatype Field = Field(name: string, tagged: bool, info: TagInfo, value: Value)

  /** The errors setValue reports: binary.Read's io.EOF (nothing to read) and
      io.ErrUnexpectedEOF (fewer bytes than the width), and "unsupported type". */
  datatype DecodeError = EOF | UnexpectedEOF | UnsupportedType(kind: string)

  /** Same reflect.Kind (and, for numbers, same width and signedness), at the top level: a
      struct matches any struct, whatever its fields. */
  predicate SameKind(a: Value, b: Value) {
    match a
    case ByteSlice(_) => b.ByteSlice?
    case OtherSlice(_) => b.OtherSlice?
    case Str(_) => b.Str?
    case Boolean(_) => b.Boolean?
    case Integer(k, _) => b.Integer? && b.kind == k
    case Float(k, _) => b.Float? && b.fkind == k
    case Struct(_) => b.Struct?
    case Other(name) => b == Other(name)
  }

  /** A decoder may change a field's value, never its name, tag or kind. */
  predicate SameShape(a: Field, b: Field) {
    a.name == b.name && a.tagged == b.tagged && a.info == b.info && SameKind(a.value, b.value)
  }

  predicate SameShapes(a: seq<Field>, b: seq<Field>) {
    |a| == |b| && forall i :: 0 <= i < |a| ==> SameShape(a[i], b[i])
  }

  /** The caller's struct, passed to the decoders by pointer and filled in place. */
  class Record {
    var fields: seq<Field>

    constructor (fields: seq<Field>)
      ensures this.fields == fields
    {
      this.fields := fields;
    }
  }
}
