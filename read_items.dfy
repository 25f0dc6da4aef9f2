/** The flat-cell decoder, ReadItems (decode.go). For every cell, in order, and for every
    tagged top-level field, in order: a row-key field is set from the cell's row key, and any
    other field is set from the cell's value when the cell's qualifier (the last
    delimiter-separated piece of its column) equals the tag's column. Nested structs are not
    walked. The first setValue error ends the call. */
module ItemsDecoder {
  import opened Wrappers
  import opened BigEndian
  import opened Fields
  import opened ValueCodec
  import opened Columns

  /** What ReadItems does to one field for one cell. */
  function ItemStep(ri: ReadItem, f: Field, sep: byte, toBool: Bytes -> bool): (r: Step)
    ensures SameShape(f, r.field)
  {
    if !f.tagged then Step(f, None)
    else if f.info.rowKey then SetField(f, ri.row, toBool)
    else if Qualifier(ri.column, sep) == f.info.column then SetField(f, ri.value, toBool)
    else Step(f, None)
  }

  /** The inner loop for one cell, from field `j` on, updating the field list in place and
      stopping at the first error. */
  function CellApplied(ri: ReadItem, fs: seq<Field>, j: nat, sep: byte, toBool: Bytes -> bool): (r: Parsed)
    requires j <= |fs|
    ensures SameShapes(fs, r.fields)
    decreases |fs| - j
  {
    if j == |fs| then Parsed(fs, None)
    else
      var s := ItemStep(ri, fs[j], sep, toBool);
      if s.err.Some? then Parsed(fs[j := s.field], s.err)
      else CellApplied(ri, fs[j := s.field], j + 1, sep, toBool)
  }

  /** The outer loop: the cells in order, each applied to the fields as the previous cells
      left them, stopping at the first error. */
  function ItemsRead(ris: seq<ReadItem>, fs: seq<Field>, sep: byte, toBool: Bytes -> bool): (r: Parsed)
    ensures SameShapes(fs, r.fields)
  {
    if ris == [] then Parsed(fs, None)
    else
      var c := CellApplied(ris[0], fs, 0, sep, toBool);
      if c.err.Some? then c else ItemsRead(ris[1..], c.fields, sep, toBool)
  }

  /** A record without fields is left alone and no error is returned. */
  lemma {:induction false} NoFieldsNoError(ris: seq<ReadItem>, sep: byte, toBool: Bytes -> bool)
    ensures ItemsRead(ris, [], sep, toBool) == Parsed([], None)
  {
    if ris != [] {
      NoFieldsNoError(ris[1..], sep, toBool);
    }
  }

  /** ReadItems (decode.go): fills the caller's struct in place from a flat list of cells. A
      nil target or an empty cell list changes nothing and returns no error. */
  method ReadItems(ris: seq<ReadItem>, s: Record?, sep: byte, toBool: Bytes -> bool)
    returns (err: Option<DecodeError>)
    modifies s
    ensures s == null ==> err == None
    ensures s != null ==> Parsed(s.fields, err) == ItemsRead(ris, old(s.fields), sep, toBool)
  {
    err := None;
    if |ris| == 0 || s == null {
      return;
    }
    if |s.fields| == 0 {
      NoFieldsNoError(ris, sep, toBool);
      return;
    }
    ghost var start := s.fields;
    for i := 0 to |ris|
      invariant |s.fields| == |start|
      invariant ItemsRead(ris, start, sep, toBool) == ItemsRead(ris[i..], s.fields, sep, toBool)
    {
      ghost var before := s.fields;
      assert ris[i..][0] == ris[i] && ris[i..][1..] == ris[i + 1..];
      for j := 0 to |s.fields|
        invariant |s.fields| == |before|
        invariant CellApplied(ris[i], before, 0, sep, toBool) == CellApplied(ris[i], s.fields, j, sep, toBool)
      {
        var f := s.fields[j];
        var g, e: Option<DecodeError> := f, None;
        if f.tagged {
          if f.info.rowKey {
            var a := SetValue(f.value, ris[i].row, toBool);
            g, e := f.(value := a.value), a.err;
          } else {
            var cs := Split(ris[i].column, sep);
            assert cs[|cs| - 1] == Qualifier(ris[i].column, sep);
            if cs[|cs| - 1] == f.info.column {
              var a := SetValue(f.value, ris[i].value, toBool);
              g, e := f.(value := a.value), a.err;
            }
          }
        }
        assert ItemStep(ris[i], f, sep, toBool) == Step(g, e);
        s.fields := s.fields[j := g];
        if e.Some? {
          err := e;
          return;
        }
      }
    }
  }

  /** After a cell's pass that ends without error, every field from `j` on has taken that
      cell's step and every field before `j` is as it was. */
  lemma {:induction false} CellAppliedOk(ri: ReadItem, fs: seq<Field>, j: nat, sep: byte, toBool: Bytes -> bool)
    requires j <= |fs| && CellApplied(ri, fs, j, sep, toBool).err.None?
    ensures forall i :: 0 <= i < |fs| ==>
      CellApplied(ri, fs, j, sep, toBool).fields[i] == if i >= j then ItemStep(ri, fs[i], sep, toBool).field else fs[i]
    decreases |fs| - j
  {
    if j < |fs| {
      var s := ItemStep(ri, fs[j], sep, toBool);
      CellAppliedOk(ri, fs[j := s.field], j + 1, sep, toBool);
    }
  }

  /** Whatever a cell's pass ends with, each field either took that cell's step or is as it was. */
  lemma {:induction false} CellAppliedEach(ri: ReadItem, fs: seq<Field>, j: nat, sep: byte, toBool: Bytes -> bool)
    requires j <= |fs|
    ensures forall i :: 0 <= i < |fs| ==>
      CellApplied(ri, fs, j, sep, toBool).fields[i] in {fs[i], ItemStep(ri, fs[i], sep, toBool).field}
    decreases |fs| - j
  {
    if j < |fs| {
      var s := ItemStep(ri, fs[j], sep, toBool);
      if s.err.None? {
        CellAppliedEach(ri, fs[j := s.field], j + 1, sep, toBool);
      }
    }
  }

  /** A cell's pass that fails stops at the first failing field: the fields from `j` up to it
      have taken the step, the later ones are as they were, and its error is returned. */
  lemma {:induction false} CellAppliedStops(ri: ReadItem, fs: seq<Field>, j: nat, sep: byte, toBool: Bytes -> bool)
    requires j <= |fs| && CellApplied(ri, fs, j, sep, toBool).err.Some?
    ensures exists k :: (j <= k < |fs| &&
      CellApplied(ri, fs, j, sep, toBool).err == ItemStep(ri, fs[k], sep, toBool).err &&
      (forall i :: j <= i < k ==> ItemStep(ri, fs[i], sep, toBool).err.None?) &&
      (forall i :: 0 <= i < |fs| ==>
         CellApplied(ri, fs, j, sep, toBool).fields[i]
           == if j <= i <= k then ItemStep(ri, fs[i], sep, toBool).field else fs[i]))
    decreases |fs| - j
  {
    var s := ItemStep(ri, fs[j], sep, toBool);
    if s.err.None? {
      CellAppliedStops(ri, fs[j := s.field], j + 1, sep, toBool);
    } else {
      assert j <= j < |fs|;
    }
  }

  /** The first error stops ReadItems: the cells before the failing one were applied in full
      and without error, the failing cell's pass is cut at its failing field, and no later
      cell is looked at. */
  lemma {:induction false} ErrorStopsLaterCells(ris: seq<ReadItem>, fs: seq<Field>, sep: byte, toBool: Bytes -> bool)
    requires ItemsRead(ris, fs, sep, toBool).err.Some?
    ensures exists k :: (0 <= k < |ris| &&
      ItemsRead(ris[..k], fs, sep, toBool).err.None? &&
      ItemsRead(ris, fs, sep, toBool) == CellApplied(ris[k], ItemsRead(ris[..k], fs, sep, toBool).fields, 0, sep, toBool))
  {
    var c := CellApplied(ris[0], fs, 0, sep, toBool);
    assert ris[..0] == [];
    if c.err.None? {
      ErrorStopsLaterCells(ris[1..], c.fields, sep, toBool);
      var k :| 0 <= k < |ris[1..]| &&
        ItemsRead(ris[1..][..k], c.fields, sep, toBool).err.None? &&
        ItemsRead(ris[1..], c.fields, sep, toBool)
          == CellApplied(ris[1..][k], ItemsRead(ris[1..][..k], c.fields, sep, toBool).fields, 0, sep, toBool);
      assert ris[..k + 1][0] == ris[0] && ris[..k + 1][1..] == ris[1..][..k];
      assert ItemsRead(ris[..k + 1], fs, sep, toBool) == ItemsRead(ris[1..][..k], c.fields, sep, toBool);
      assert ris[k + 1] == ris[1..][k];
    }
  }

  /** One field followed through the cells when no error stops the walk. */
  function FieldAfter(ris: seq<ReadItem>, f: Field, sep: byte, toBool: Bytes -> bool): Field {
    if ris == [] then f else FieldAfter(ris[1..], ItemStep(ris[0], f, sep, toBool).field, sep, toBool)
  }

  /** Without an error, each field ends as FieldAfter says: fields do not interact. */
  lemma {:induction false} ItemsReadField(ris: seq<ReadItem>, fs: seq<Field>, i: nat, sep: byte, toBool: Bytes -> bool)
    requires i < |fs| && ItemsRead(ris, fs, sep, toBool).err.None?
    ensures ItemsRead(ris, fs, sep, toBool).fields[i] == FieldAfter(ris, fs[i], sep, toBool)
  {
    if ris != [] {
      var c := CellApplied(ris[0], fs, 0, sep, toBool);
      CellAppliedOk(ris[0], fs, 0, sep, toBool);
      ItemsReadField(ris[1..], c.fields, i, sep, toBool);
    }
  }

  /** A field that no cell's step changes keeps its value, error or not. */
  lemma {:induction false} InertFieldUnchanged(ris: seq<ReadItem>, fs: seq<Field>, i: nat, sep: byte, toBool: Bytes -> bool)
    requires i < |fs|
    requires forall c :: c in ris ==> ItemStep(c, fs[i], sep, toBool).field == fs[i]
    ensures ItemsRead(ris, fs, sep, toBool).fields[i] == fs[i]
  {
    if ris != [] {
      var c := CellApplied(ris[0], fs, 0, sep, toBool);
      CellAppliedEach(ris[0], fs, 0, sep, toBool);
      assert ris[0] in ris;
      if c.err.None? {
        forall x | x in ris[1..]
          ensures ItemStep(x, c.fields[i], sep, toBool).field == c.fields[i]
        {
          assert x in ris;
        }
        InertFieldUnchanged(ris[1..], c.fields, i, sep, toBool);
      }
    }
  }

  /** Fields ReadItems never writes: untagged fields, struct fields (it does not walk into
      nested structs; setValue refuses them), and non-row-key fields whose column no cell's
      qualifier equals. */
  lemma FieldsLeftAlone(ris: seq<ReadItem>, fs: seq<Field>, i: nat, sep: byte, toBool: Bytes -> bool)
    requires i < |fs|
    requires !fs[i].tagged || fs[i].value.Struct? ||
             (!fs[i].info.rowKey && forall c :: c in ris ==> Qualifier(c.column, sep) != fs[i].info.column)
    ensures ItemsRead(ris, fs, sep, toBool).fields[i] == fs[i]
  {
    InertFieldUnchanged(ris, fs, i, sep, toBool);
  }

  /** A non-row-key field whose tag column holds the delimiter ("family:qualifier", the form
      ReadRow needs to find a cell in its map) is never written by ReadItems: a qualifier
      never contains the delimiter, so no cell matches it. */
  lemma FullColumnNeverMatched(ris: seq<ReadItem>, fs: seq<Field>, i: nat, sep: byte, toBool: Bytes -> bool)
    requires i < |fs| && !fs[i].info.rowKey && sep in fs[i].info.column
    ensures ItemsRead(ris, fs, sep, toBool).fields[i] == fs[i]
  {
    forall c | c in ris
      ensures Qualifier(c.column, sep) != fs[i].info.column
    {
      assert sep !in Qualifier(c.column, sep);
    }
    FieldsLeftAlone(ris, fs, i, sep, toBool);
  }

  /** The index of the last cell whose qualifier equals `column`, or -1. */
  function LastMatch(ris: seq<ReadItem>, column: Bytes, sep: byte): (k: int)
    ensures -1 <= k < |ris|
    ensures k >= 0 ==> Qualifier(ris[k].column, sep) == column
    ensures forall j :: k < j < |ris| ==> Qualifier(ris[j].column, sep) != column
  {
    if ris == [] then -1
    else if Qualifier(ris[|ris| - 1].column, sep) == column then |ris| - 1
    else LastMatch(ris[..|ris| - 1], column, sep)
  }

  /** A column field followed through the cells ends with the value decoded from the last
      matching cell, or keeps its value when no cell matches. */
  lemma {:induction false} FieldAfterColumn(ris: seq<ReadItem>, f: Field, sep: byte, toBool: Bytes -> bool)
    requires f.tagged && !f.info.rowKey
    ensures var k := LastMatch(ris, f.info.column, sep);
      FieldAfter(ris, f, sep, toBool).value
        == if k >= 0 then SetValue(f.value, ris[k].value, toBool).value else f.value
  {
    if ris != [] {
      var f1 := ItemStep(ris[0], f, sep, toBool).field;
      FieldAfterColumn(ris[1..], f1, sep, toBool);
      var k, k' := LastMatch(ris, f.info.column, sep), LastMatch(ris[1..], f.info.column, sep);
      if k' >= 0 {
        assert ris[1..][k'] == ris[k' + 1];
        assert k == k' + 1;
        Overwrite(f.value, ris[0].value, ris[k].value, toBool);
      } else if Qualifier(ris[0].column, sep) == f.info.column {
        assert k == 0;
      } else {
        assert k == -1;
      }
    }
  }

  /** Several matching cells: the last one in list order wins (when no error stops the walk). */
  lemma LastMatchWins(ris: seq<ReadItem>, fs: seq<Field>, i: nat, sep: byte, toBool: Bytes -> bool)
    requires i < |fs| && ItemsRead(ris, fs, sep, toBool).err.None?
    requires fs[i].tagged && !fs[i].info.rowKey
    ensures var k := LastMatch(ris, fs[i].info.column, sep);
      ItemsRead(ris, fs, sep, toBool).fields[i].value
        == if k >= 0 then SetValue(fs[i].value, ris[k].value, toBool).value else fs[i].value
  {
    ItemsReadField(ris, fs, i, sep, toBool);
    FieldAfterColumn(ris, fs[i], sep, toBool);
  }

  /** A row-key field followed through the cells is set from the last cell's row key. */
  lemma {:induction false} FieldAfterRowKey(ris: seq<ReadItem>, f: Field, sep: byte, toBool: Bytes -> bool)
    requires f.tagged && f.info.rowKey && ris != []
    ensures FieldAfter(ris, f, sep, toBool).value == SetValue(f.value, ris[|ris| - 1].row, toBool).value
  {
    var f1 := ItemStep(ris[0], f, sep, toBool).field;
    if |ris| > 1 {
      FieldAfterRowKey(ris[1..], f1, sep, toBool);
      Overwrite(f.value, ris[0].row, ris[|ris| - 1].row, toBool);
    }
  }

  /** The row-key field takes the row key of the last cell (when no error stops the walk);
      a string row-key field becomes that key. */
  lemma RowKeyFromLastCell(ris: seq<ReadItem>, fs: seq<Field>, i: nat, sep: byte, toBool: Bytes -> bool)
    requires i < |fs| && ItemsRead(ris, fs, sep, toBool).err.None?
    requires fs[i].tagged && fs[i].info.rowKey && ris != []
    ensures ItemsRead(ris, fs, sep, toBool).fields[i].value
         == SetValue(fs[i].value, ris[|ris| - 1].row, toBool).value
    ensures fs[i].value.Str? ==> ItemsRead(ris, fs, sep, toBool).fields[i].value == Str(ris[|ris| - 1].row)
  {
    ItemsReadField(ris, fs, i, sep, toBool);
    FieldAfterRowKey(ris, fs[i], sep, toBool);
  }
}
