# btawel read path, modelled in Dafny

btawel maps Google Cloud Bigtable rows onto tagged Go structs. This project models its read
side, `decode.go`:

- `ReadRow` flattens a row's cells, family by family, into a map from full column name
  to cell. `parseVal` then walks the struct's fields. A row-key field is set from the row
  key, a nested struct is walked recursively, and every other field is set from the cell
  of its tag's column.
- `ReadItems` decodes a flat list of cells into a struct. For each cell, it tries every
  tagged top-level field. A row-key field takes the cell's row key. Any other field takes
  the cell's value when the cell's column qualifier equals the tag's column.
- `ReadColumnQualifier` returns the qualifier of each cell: the text after the last
  delimiter of its column name.
- `setValue` is the leaf codec. It takes byte slices and strings verbatim and converts
  bools with boolconv. It reads integers and floats with `binary.Read` in big-endian order.
  Any other kind is "unsupported".

The files and modules:

- `big_endian.dfy` (module `BigEndian`): base-256 numerals and two's complement. This is
  the arithmetic behind `binary.Read`.
- `fields.dfy` (module `Fields`): the struct as a sequence of fields. Each field has a Go
  kind, its parsed tag and its value. Nested structs hold their own fields. The caller's
  struct is the class `Record`, which the decoders fill in place.
- `value_codec.dfy` (module `ValueCodec`): `setValue` and its properties.
- `columns.dfy` (module `Columns`): cells, `strings.Split` and `strings.Join` on the
  delimiter, the qualifier, and `ReadColumnQualifier`.
- `read_row.dfy` (module `RowDecoder`): `ReadRow`, its map-building loop, `parseVal` and
  their specification.
- `read_items.dfy` (module `ItemsDecoder`): `ReadItems` and its specification.
- `scenarios.dfy` (module `Scenarios`): the cases of `decode_test.go`, restated as lemmas.

The decoders are imperative. `ReadRow` and `ReadItems` are methods that modify the `Record`
they are given. Their loops are proved against pure specification functions:
`ParsedFields` for `parseVal` and `ItemsRead` for `ReadItems`. Lemmas then derive the
observable behaviour from those functions: what each field ends up holding, what the first
error does, and which cell wins.

The model follows what `decode.go` does, including where a reader of the library might
expect something else:

- A numeric cell is read as its first `Width` bytes, and trailing bytes are ignored. A
  cell longer than the width is not rejected.
- In `ReadRow`, a field whose column has no cell is decoded from an empty slice, not left
  untouched. Because `rowMap[col]` is a zero `ReadItem`, a string becomes empty and a
  number fails with `io.EOF` after being zeroed.
- In `ReadItems`, every cell rewrites the row-key field, so the last cell's row key wins,
  not the first.
- `parseVal` does not skip untagged fields. An untagged leaf is looked up under the
  column that the tag parser makes of the empty tag, and an untagged nested struct is
  walked. Only `ReadItems` skips untagged fields.
- Pointer (optional) fields are not special-cased. `setValue` reports them as unsupported.
- `ReadRow` looks a field up under its whole tag column ("family:qualifier"), while
  `ReadItems` compares the tag column with a cell's qualifier, which never contains the
  delimiter. So a column field whose tag contains the delimiter is never written by
  `ReadItems` (`ItemsDecoder.FullColumnNeverMatched`). For cells whose column carries the
  family prefix, as Bigtable's do, no tag lets both decoders fill the same column field.
  In `decode_test.go`, the `ReadItems` subtest of `TestRead` can pass only because it
  reuses the record that the `ReadRow` subtest has already filled
  (`Scenarios.TStringExample`).

## Model

| member | source | states |
|---|---|---|
| BigEndian.Unsigned | decode.go:143-191 | the big-endian value of a word lies in [0, 256^w) |
| BigEndian.Encode | decode.go:143-191 | the w-byte big-endian encoding of n has exactly w bytes |
| BigEndian.UnsignedEncode | decode.go:143-191 | reading back an encoded number gives the number |
| BigEndian.EncodeUnsigned | decode.go:143-191 | encoding a word's value at its own width gives the word back (Unsigned is a bijection on w-byte words) |
| BigEndian.ToSigned | decode.go:153-156 | the two's-complement reading of a w-byte pattern lies in [-256^w/2, 256^w/2) and is negative exactly when the top bit is set |
| BigEndian.FromSigned | decode.go:153-156 | the bit pattern of a signed value is a w-byte word whose two's-complement reading is that value |
| BigEndian.FromSignedToSigned | decode.go:153-156 | the two's-complement reading is onto: every w-byte pattern is the pattern of its own reading |
| Fields.Width | decode.go:143-191 | the number of bytes binary.Read consumes for an integer kind: 1, 2, 4 or 8 (int and uint through 64-bit variables) |
| ValueCodec.ReadWord | decode.go:143-201 | binary.Read on a w-byte variable succeeds exactly when at least w bytes are there; otherwise the variable stays 0 and the error is io.EOF (no bytes) or io.ErrUnexpectedEOF |
| ValueCodec.IntegerOf | decode.go:143-191 | the integer read for a kind always lies in that kind's range (int and uint as 64-bit) |
| ValueCodec.SetValue | decode.go:127-209 | setValue never changes a field's kind; integers land in their kind's range; an error is returned exactly for structs, other kinds without a rule, and numbers whose buffer is shorter than their width |
| ValueCodec.SetField | decode.go:127-209 | setting a field changes its value only, never its name, tag or kind |
| ValueCodec.IntegerRoundTrip | decode.go:143-191 | the bytes binary.Write produces for n, followed by anything, decode into exactly n without error, whatever the field held |
| ValueCodec.IntegerReadsPrefix | decode.go:143-191 | with at least a word of bytes the decode succeeds, depends only on the first Width bytes, and re-encoding the result gives those bytes back |
| ValueCodec.ShortBufferZeroes | decode.go:143-191 | a buffer shorter than the width sets the field to 0 and returns io.EOF (empty) or io.ErrUnexpectedEOF |
| ValueCodec.VerbatimKinds | decode.go:131-138 | strings and byte slices receive the bytes verbatim without error; a slice of non-byte elements is left unchanged without error |
| ValueCodec.UnsupportedKinds | decode.go:203-204 | a struct or other kind without a rule keeps its value and gets an "unsupported type" error |
| ValueCodec.Overwrite | decode.go:127-209 | a second setValue gives exactly what the second alone would give; the kinds setValue leaves alone (non-byte slices, structs, kinds without a rule) keep their value |
| ValueCodec.FloatReadsBits | decode.go:193-201 | a float field takes the big-endian bit pattern of the first 4 or 8 bytes without error |
| Columns.Split | decode.go:74 | strings.Split returns at least one piece and no piece contains the delimiter |
| Columns.JoinSplit | decode.go:74 | joining the pieces of a split gives back the column name |
| Columns.SplitJoin | decode.go:74 | splitting pieces that have no delimiter, joined by the delimiter, gives back the pieces |
| Columns.Qualifier | decode.go:111-112 | `cs[len(cs)-1]`, the qualifier compared with the tag: it never contains the delimiter |
| Columns.QualifierIsLastSegment | decode.go:74-75 | the last piece of the split is the suffix after the last delimiter (the whole name when there is none), and it is the only such suffix |
| Columns.QualifierOfColumn | decode.go:74-75 | the qualifier of "family" + delimiter + q is q when q has no delimiter |
| Columns.LastSegmentUnique | decode.go:74-75 | two delimiter-free suffixes, each preceded by the delimiter or by nothing, are equal |
| Columns.ReadColumnQualifier | decode.go:71-79 | one qualifier per cell, in cell order, each the text after the last delimiter of that cell's column |
| RowDecoder.LastIndex | decode.go:25-29 | the index of the last cell with a given column, with no later cell of that column, or -1 |
| RowDecoder.BuildRowMap | decode.go:21-29 | the map built from the families, visited in any order, holds exactly the columns of the row, each mapped to the last cell of that column in one family |
| RowDecoder.OneFamilyRowMap | decode.go:25-29 | with one family, the map holds exactly the family's columns, each mapped to its last cell |
| RowDecoder.RowMapUnique | decode.go:25-29 | when no column occurs in two families, the map does not depend on the order in which the families are visited |
| RowDecoder.Lookup | decode.go:61 | `rowMap[ti.Column].Value`: a column missing from the map reads as the zero ReadItem's empty value |
| RowDecoder.LookupCell | decode.go:21-61 | over any valid row map, a column's bytes are empty when no family holds the column, and otherwise the value of that column's last cell in one of the families holding it |
| RowDecoder.ParsedField | decode.go:48-65 | parseVal's handling of one field: only a row-key or leaf field can fail; a nested struct's error is dropped |
| RowDecoder.ParsedFields | decode.go:41-68 | parseVal over a field list gives one field back per field; the lemmas below state which value each ends with and which error is returned |
| RowDecoder.ParsedFieldShape | decode.go:47-66 | parseVal's handling of a field keeps its name, tag and top-level kind (a nested struct stays a struct; its own fields are not compared) |
| RowDecoder.ParsedFieldsShape | decode.go:41-68 | parseVal keeps the struct's top-level shape: the same fields with the same names, tags and top-level kinds |
| RowDecoder.FirstFailure | decode.go:47-66 | the index of the first field whose handling fails: every earlier field succeeds |
| RowDecoder.StopsAtFirstFailure | decode.go:47-66 | the fields up to and including the first failing one are handled, the later ones are untouched (no rollback), and the error returned is the failing field's, or none |
| RowDecoder.FailureError | decode.go:47-66 | parseVal's error is the first failing field's error, or none when no field fails |
| RowDecoder.FailureFields | decode.go:47-66 | every field up to the first failing one is handled and every later one is untouched |
| RowDecoder.ReachedField | decode.go:47-66 | a field whose predecessors all succeeded ends as its own handling says |
| RowDecoder.RowKeyBinding | decode.go:51-56 | the row-key test comes first: a reached row-key field is set from the row key, and a string row-key field becomes the key |
| RowDecoder.ColumnFieldDecoded | decode.go:61-64 | a reached leaf field is decoded from its column's cell, or from no bytes when the row has no such cell (a string becomes empty) |
| RowDecoder.NestedFieldWalked | decode.go:58-59 | a reached nested struct is walked with the same key and map |
| RowDecoder.NestedErrorsSwallowed | decode.go:58-63 | an error from parseVal always comes from a top-level row-key or leaf field, never from a nested struct, and every later field is untouched |
| RowDecoder.AbsentIntegerFails | decode.go:61-63 | a reached integer field with no cell fails with io.EOF and is set to 0 |
| RowDecoder.LaterCellWins | decode.go:25-29 | in a one-family row with a repeated column, the field is decoded from the later cell |
| RowDecoder.ParseField | decode.go:48-65 | one iteration of parseVal's loop does exactly what the specification's single-field step does |
| RowDecoder.ParseVal | decode.go:41-68 | the loop, with its recursion, computes exactly the specification ParsedFields: fields and error |
| RowDecoder.ReadRow | decode.go:17-38 | the struct afterwards, and the error, are parseVal's result over some valid row map (unique when families share no column) |
| ItemsDecoder.ItemStep | decode.go:97-118 | one cell applied to one field keeps the field's name, tag and top-level kind |
| ItemsDecoder.CellApplied | decode.go:95-120 | the inner loop over the fields keeps the struct's top-level shape |
| ItemsDecoder.ItemsRead | decode.go:93-122 | the outer loop over the cells keeps the struct's top-level shape |
| ItemsDecoder.NoFieldsNoError | decode.go:88-91 | a struct without fields is left alone and no error is returned |
| ItemsDecoder.ReadItems | decode.go:82-125 | a nil target returns no error; otherwise the struct afterwards, and the error, are exactly the specification ItemsRead over its old fields |
| ItemsDecoder.CellAppliedOk | decode.go:95-120 | after a cell's pass without error, every field has taken that cell's step |
| ItemsDecoder.CellAppliedEach | decode.go:95-120 | after a cell's pass, each field has either taken that cell's step or is unchanged |
| ItemsDecoder.CellAppliedStops | decode.go:104-115 | a failing pass stops at its first failing field: earlier fields took the step, later fields are unchanged, and the error is the failing field's |
| ItemsDecoder.ErrorStopsLaterCells | decode.go:93-122 | on error, the earlier cells were applied in full and without error, the failing cell's pass is the result, and no later cell is looked at |
| ItemsDecoder.ItemsReadField | decode.go:93-122 | without an error, each field ends as if followed alone through the cells: fields do not interact |
| ItemsDecoder.InertFieldUnchanged | decode.go:93-122 | a field that no cell's step changes keeps its value, error or not |
| ItemsDecoder.FieldsLeftAlone | decode.go:97-100 | untagged fields, struct fields (not walked) and fields that no cell's qualifier matches are never written |
| ItemsDecoder.FullColumnNeverMatched | decode.go:111-112 | a non-row-key field whose tag column contains the delimiter is never written, since no qualifier contains it |
| ItemsDecoder.LastMatch | decode.go:111-112 | the index of the last cell whose qualifier equals the column, with no later match, or -1 |
| ItemsDecoder.FieldAfterColumn | decode.go:111-117 | a column field followed through the cells ends with the value decoded from the last matching cell, or its old value when none matches |
| ItemsDecoder.LastMatchWins | decode.go:111-117 | with several matching cells, the last one in list order wins |
| ItemsDecoder.FieldAfterRowKey | decode.go:103-108 | a row-key field followed through the cells ends set from the last cell's row key |
| ItemsDecoder.RowKeyFromLastCell | decode.go:103-108 | without an error, the row-key field takes the last cell's row key, and a string row-key field becomes that key |
| Scenarios.QualifierExample | decode_test.go:315-335 | the qualifiers of "fc:test" and "fc:test2" are "test" and "test2" |
| Scenarios.ItemsErrorExample | decode_test.go:42-50 | ReadItems on a 4-byte cell for an int field holding 7 fails with io.ErrUnexpectedEOF and leaves the field at 0 |
| Scenarios.RowErrorExample | decode_test.go:52-55 | ReadRow with the tag "test" finds no cell (the map key is "fc:test"), fails with io.EOF and leaves the int field that held 7 at 0 |
| Scenarios.RowKeyStructExample | decode_test.go:59-72 | a struct-typed row-key field is an "unsupported type" error for both decoders |
| Scenarios.PersonRowMap | decode_test.go:283-303 | the two-family Person row maps its three columns to its three cells, whatever the visiting order |
| Scenarios.AgeDecoded | decode_test.go:280-293 | the five-byte age buffer decodes to int32 16, with the trailing byte ignored |
| Scenarios.PersonExample | decode_test.go:278-312 | ReadRow on the Person row sets the name, the age 16 and the nested address, and returns no error |
| Scenarios.ReadPerson | decode_test.go:305-311 | a fresh Person record passed to ReadRow ends with the name, the age 16 and the nested address, and no error |
| Scenarios.TStringExample | decode_test.go:78-265 | for TestRead's field tagged "fc:tstr", ReadRow sets "hoge" from the cell, while ReadItems with the same cell leaves the field as it was, without error |

## Left out

- Tag parsing (GetBigtableTagInfo and the tag grammar) is not part of this model. Each
  field carries whether its tag is non-empty and the parsed result (row-key flag and
  column) as given data.
- boolconv is not part of this model. The byte-to-bool conversion is the parameter
  `toBool`.
- Floating point: a float field holds the raw IEEE bit pattern that binary.Read fills in.
  No float arithmetic or comparison is modelled.
- The delimiter is one byte, passed as a parameter. A multi-byte ColumnQualifierDelimiter
  is not modelled.
- bigtable.Row.Key() is library code. The row's key is given as a component of `Row`.
- Cell timestamps and labels of bigtable.ReadItem are not modelled, because the decoders
  never read them.
- Go's random iteration order over the families is modelled as a nondeterministic choice.
  `ReadRow` is specified by the predicate `IsRowMap`, not by a single map.
- RowDecoder.IsRowMap: the predicate picks a family per column, which is looser than one
  visiting order. When families A and B both hold columns c1 and c2, it admits a map that
  takes c1 from A and c2 from B, which the Go loop cannot build. For rows whose column
  names carry their family prefix, the families share no column and `RowMapUnique` makes
  the map unique.
- Reflection (reflect, fatih/structs) is replaced by the explicit field sequence, and the
  following reflection failures are not modelled. An unexported slice field panics
  whenever setValue is called on it, because setValue calls f.Value() on every slice field
  (decode.go:132).
  Other unexported or non-settable fields get an f.Set error, which the code drops. A named
  non-slice type of a matching kind (such as `type Age int32` or `type Name string`) makes
  f.Set panic. A named byte-slice type (such as `type Raw []byte`) is set normally, as the
  model's `ByteSlice` case does.
- `int` and `uint` are always read as 8 bytes through int64/uint64 variables
  (decode.go:144-151). The model keeps the full 64-bit range of `int(n)` and `uint(n)`, as
  on a 64-bit platform. The truncation these conversions would do on a 32-bit platform is
  not modelled.
- nil and empty byte slices are not distinguished.
- RowDecoder.ReadRow: Go's ReadRow has no nil check, so a nil or non-struct target makes
  structs.New panic (decode.go:31). That panic path is not modelled: the model's ReadRow
  takes a non-null `Record`. ReadItems, which does check for nil (decode.go:84), takes a
  nullable `Record?`.
- RowDecoder.ParseVal: the recursive call builds a new field sequence that the caller
  stores back, instead of writing through Go's field pointers. Aliasing between fields is
  therefore not modelled.
- The write side (the mutation encoder) and the example program are not part of this
  model.
