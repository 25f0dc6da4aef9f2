/** The leaf codec, setValue (decode.go): turns the bytes of one cell into the value of one
    field, by the field's kind. Byte slices and strings take the bytes verbatim; integers and
    floats are read with binary.Read in big-endian order, which reads exactly the kind's width
    and ignores what follows; every kind without a rule is "unsupported". */
module ValueCodec {
  import opened Wrappers
  import opened BigEndian
  import opened Fields

  /** What setValue does to one field: the value the field holds afterwards and the error
      setValue returns. */
  datatype Assigned = Assigned(value: Value, err: Option<DecodeError>)

  /** What binary.Read leaves in a zeroed w-byte variable, and the error it returns: it
      fills the variable only when a whole word is available. */
  datatype Word = Word(n: nat, err: Option<DecodeError>)

  function ReadWord(val: Bytes, w: nat): (r: Word)
    requires w >= 1
    ensures r.n < Pow256(w)
    ensures r.err.None? <==> |val| >= w
    ensures r.err.Some? ==> r.n == 0 && r.err == Some(if |val| == 0 then EOF else UnexpectedEOF)
  {
    if |val| >= w then Word(Unsigned(val[..w]), None)
    else if |val| == 0 then Word(0, Some(EOF))
    else Word(0, Some(UnexpectedEOF))
  }

  /** The integer of kind `k` whose bit pattern is the unsigned word `u`. */
  function IntegerOf(k: IntKind, u: nat): (n: int)
    requires u < Pow256(Width(k))
    ensures InRange(k, n)
  {
    if IsSigned(k) then ToSigned(u, Width(k)) else u
  }

  /** The big-endian two's-complement bytes that binary.Write produces for `n` of kind `k`:
      the encoding this decoder is meant to invert. */
  function EncodeInt(k: IntKind, n: int): (s: Bytes)
    requires InRange(k, n)
    ensures |s| == Width(k)
  {
    Encode(if IsSigned(k) then FromSigned(n, Width(k)) else n, Width(k))
  }

  /** setValue: the new value of a field that held `v`, given the cell bytes `val`.
      `toBool` stands for boolconv's byte-to-bool conversion. The field's kind never
      changes; integers always land in their kind's range; an error is returned exactly for
      the kinds without a rule and for a number whose buffer is shorter than its width. */
  function SetValue(v: Value, val: Bytes, toBool: Bytes -> bool): (r: Assigned)
    ensures SameKind(v, r.value)
    ensures r.value.Integer? ==> InRange(r.value.kind, r.value.n)
    ensures r.err.Some? <==>
              v.Struct? || v.Other? ||
              (v.Integer? && |val| < Width(v.kind)) || (v.Float? && |val| < FloatWidth(v.fkind))
  {
    match v
    case ByteSlice(_) => Assigned(ByteSlice(val), None)
    case OtherSlice(_) => Assigned(v, None)
    case Str(_) => Assigned(Str(val), None)
    case Boolean(_) => Assigned(Boolean(toBool(val)), None)
    case Integer(k, _) =>
      var word := ReadWord(val, Width(k));
      Assigned(Integer(k, IntegerOf(k, word.n)), word.err)
    case Float(k, _) =>
      var word := ReadWord(val, FloatWidth(k));
      Assigned(Float(k, word.n), word.err)
    case Struct(_) => Assigned(v, Some(UnsupportedType("struct")))
    case Other(name) => Assigned(v, Some(UnsupportedType(name)))
  }

  /** setValue applied to a whole field: the field with its new value, and the error. */
  datatype Step = Step(field: Field, err: Option<DecodeError>)

  /** The outcome of a decoder over a field list: the fields afterwards and the error. */
  datatype Parsed = Parsed(fields: seq<Field>, err: Option<DecodeError>)

  function SetField(f: Field, val: Bytes, toBool: Bytes -> bool): (r: Step)
    ensures SameShape(f, r.field)
  {
    var a := SetValue(f.value, val, toBool);
    Step(f.(value := a.value), a.err)
  }

  /** Round trip: the bytes binary.Write produces for `n`, followed by anything at all,
      decode into a field of the same kind as exactly `n`, whatever the field held before. */
  lemma {:induction false} IntegerRoundTrip(k: IntKind, before: int, n: int, trailing: Bytes, toBool: Bytes -> bool)
    requires InRange(k, n)
    ensures SetValue(Integer(k, before), EncodeInt(k, n) + trailing, toBool) == Assigned(Integer(k, n), None)
  {
    var w := Width(k);
    var u := if IsSigned(k) then FromSigned(n, w) else n;
    var buf := EncodeInt(k, n) + trailing;
    assert buf[..w] == Encode(u, w);
    UnsignedEncode(u, w);
    assert ReadWord(buf, w) == Word(u, None);
    assert IntegerOf(k, u) == n;
  }

  /** Trailing bytes are ignored: with at least a word available the decode succeeds, and
      re-encoding the result gives back exactly the first Width(k) bytes. */
  lemma {:induction false} IntegerReadsPrefix(k: IntKind, before: int, val: Bytes, toBool: Bytes -> bool)
    requires |val| >= Width(k)
    ensures SetValue(Integer(k, before), val, toBool).err == None
    ensures SetValue(Integer(k, before), val, toBool) == SetValue(Integer(k, before), val[..Width(k)], toBool)
    ensures EncodeInt(k, SetValue(Integer(k, before), val, toBool).value.n) == val[..Width(k)]
  {
    var w := Width(k);
    var u := Unsigned(val[..w]);
    assert val[..w][..w] == val[..w];
    assert ReadWord(val, w) == ReadWord(val[..w], w) == Word(u, None);
    var n := IntegerOf(k, u);
    assert SetValue(Integer(k, before), val, toBool) == Assigned(Integer(k, n), None);
    assert IsSigned(k) ==> FromSigned(n, w) == u by {
      if IsSigned(k) {
        FromSignedToSigned(u, w);
      }
    }
    EncodeUnsigned(val[..w]);
  }

  /** A buffer shorter than the width is an error, and the field is still overwritten with
      zero (setValue calls f.Set after the failed read). */
  lemma ShortBufferZeroes(k: IntKind, before: int, val: Bytes, toBool: Bytes -> bool)
    requires |val| < Width(k)
    ensures SetValue(Integer(k, before), val, toBool)
         == Assigned(Integer(k, 0), Some(if |val| == 0 then EOF else UnexpectedEOF))
  {
  }

  /** Strings and byte slices receive the cell bytes verbatim, without error; a slice of
      non-byte elements is left as it was, without error. */
  lemma VerbatimKinds(v: Value, val: Bytes, toBool: Bytes -> bool)
    requires v.Str? || v.ByteSlice? || v.OtherSlice?
    ensures SetValue(v, val, toBool).err == None
    ensures v.Str? ==> SetValue(v, val, toBool).value == Str(val)
    ensures v.ByteSlice? ==> SetValue(v, val, toBool).value == ByteSlice(val)
    ensures v.OtherSlice? ==> SetValue(v, val, toBool).value == v
  {
  }

  /** A struct (or any other kind without a rule) is never written by setValue: it keeps its
      value and "unsupported type" is returned. */
  lemma UnsupportedKinds(v: Value, val: Bytes, toBool: Bytes -> bool)
    requires v.Struct? || v.Other?
    ensures SetValue(v, val, toBool).value == v
    ensures SetValue(v, val, toBool).err.Some? && SetValue(v, val, toBool).err.value.UnsupportedType?
  {
  }

  /** A second setValue gives exactly what the second alone would give: the kinds setValue
      writes take the new bytes whatever the first call left, and the kinds it leaves alone
      (non-byte slices, structs, kinds without a rule) keep the value they held. */
  lemma Overwrite(v: Value, a: Bytes, b: Bytes, toBool: Bytes -> bool)
    ensures SetValue(SetValue(v, a, toBool).value, b, toBool) == SetValue(v, b, toBool)
  {
  }

  /** A float field takes the raw big-endian bit pattern of the first 4 or 8 bytes. */
  lemma FloatReadsBits(k: FloatKind, before: nat, val: Bytes, toBool: Bytes -> bool)
    requires |val| >= FloatWidth(k)
    ensures SetValue(Float(k, before), val, toBool)
         == Assigned(Float(k, Unsigned(val[..FloatWidth(k)])), None)
  {
  }
}
