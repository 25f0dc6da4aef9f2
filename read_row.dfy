/** The full-row decoder, ReadRow and parseVal (decode.go). ReadRow first flattens the row's
    cells, family by family, into a map from full column name to cell; parseVal then walks the
    record's fields: a row-key field is set from the row key, a nested struct is walked with
    the same map (its error is dropped), and every other field is set from the cell of its
    tag's column, or from no bytes at all when the row has no such cell. */
module RowDecoder {
  import opened Wrappers
  import opened BigEndian
  import opened Fields
  import opened ValueCodec
  import opened Columns
  import opened Seqs

  /** A row as the client returns it: the row key and the cells grouped by column family. */
  datatype Row = Row(key: Bytes, families: map<Bytes, seq<ReadItem>>)

  /** The index of the last cell of `items` whose full column is `column`, or -1. */
  function LastIndex(items: seq<ReadItem>, column: Bytes): (k: int)
    ensures -1 <= k < |items|
    ensures k >= 0 ==> items[k].column == column
    ensures forall j :: k < j < |items| ==> items[j].column != column
  {
    if items == [] then -1
    else if items[|items| - 1].column == column then |items| - 1
    else LastIndex(items[..|items| - 1], column)
  }

  /** The last cell of `items` whose full column is `column`: the one a map filled in list
      order keeps. */
  function LastWith(items: seq<ReadItem>, column: Bytes): Option<ReadItem> {
    var k := LastIndex(items, column);
    if k >= 0 then Some(items[k]) else None
  }

  lemma LastWithExtend(items: seq<ReadItem>, j: nat)
    requires j < |items|
    ensures forall c :: LastWith(items[..j + 1], c)
                     == if items[j].column == c then Some(items[j]) else LastWith(items[..j], c)
  {
    forall c
      ensures LastWith(items[..j + 1], c)
           == if items[j].column == c then Some(items[j]) else LastWith(items[..j], c)
    {
      assert items[..j + 1][..j] == items[..j];
    }
  }

  /** `m` maps a column to a cell of it exactly when some family among `keys` holds that
      column, and then to the LAST such cell of one of those families. */
  ghost predicate Covers(families: map<Bytes, seq<ReadItem>>, keys: set<Bytes>, m: map<Bytes, ReadItem>)
    requires keys <= families.Keys
  {
    (forall c :: c in m ==> exists f :: f in keys && LastWith(families[f], c) == Some(m[c])) &&
    (forall f, c :: f in keys && LastWith(families[f], c).Some? ==> c in m)
  }

  /** What ReadRow's rowMap may be: Go visits the families in no fixed order, so when two
      families hold the same column either family's last cell may be the one kept. */
  ghost predicate IsRowMap(families: map<Bytes, seq<ReadItem>>, m: map<Bytes, ReadItem>) {
    Covers(families, families.Keys, m)
  }

  /** The first loop of ReadRow: every cell of every family stored under its full column,
      later cells overwriting earlier ones. */
  method BuildRowMap(families: map<Bytes, seq<ReadItem>>) returns (m: map<Bytes, ReadItem>)
    ensures IsRowMap(families, m)
  {
    m := map[];
    var todo := families.Keys;
    ghost var done: set<Bytes> := {};
    while todo != {}
      invariant todo <= families.Keys && done == families.Keys - todo
      invariant Covers(families, done, m)
      decreases todo
    {
      var fam :| fam in todo;
      var items := families[fam];
      for j := 0 to |items|
        invariant forall c :: c in m ==>
                    (exists f :: f in done && LastWith(families[f], c) == Some(m[c])) ||
                    LastWith(items[..j], c) == Some(m[c])
        invariant forall f, c :: f in done && LastWith(families[f], c).Some? ==> c in m
        invariant forall c :: LastWith(items[..j], c).Some? ==> c in m && LastWith(items[..j], c) == Some(m[c])
      {
        LastWithExtend(items, j);
        m := m[items[j].column := items[j]];
      }
      assert items[..|items|] == items;
      todo, done := todo - {fam}, done + {fam};
    }
  }

  /** With a single family, the map keeps exactly the last cell of each column. */
  lemma OneFamilyRowMap(fam: Bytes, items: seq<ReadItem>, m: map<Bytes, ReadItem>, c: Bytes)
    requires IsRowMap(map[fam := items], m)
    ensures c in m <==> LastWith(items, c).Some?
    ensures c in m ==> LastWith(items, c) == Some(m[c])
  {
    var families := map[fam := items];
    if LastWith(items, c).Some? {
      assert fam in families && LastWith(families[fam], c).Some?;
    }
  }

  /** No column name occurs in two different families. */
  ghost predicate FamiliesDisjoint(families: map<Bytes, seq<ReadItem>>) {
    forall f, g, c :: f in families && g in families && f != g && LastWith(families[f], c).Some?
      ==> LastWith(families[g], c).None?
  }

  lemma SameFamily(families: map<Bytes, seq<ReadItem>>, f: Bytes, g: Bytes, c: Bytes)
    requires FamiliesDisjoint(families) && f in families && g in families
    requires LastWith(families[f], c).Some? && LastWith(families[g], c).Some?
    ensures f == g
  {
  }

  /** When no column is shared between families, the visiting order does not matter: the
      map is determined by the row. */
  lemma RowMapUnique(families: map<Bytes, seq<ReadItem>>, m1: map<Bytes, ReadItem>, m2: map<Bytes, ReadItem>)
    requires FamiliesDisjoint(families)
    requires IsRowMap(families, m1) && IsRowMap(families, m2)
    ensures m1 == m2
  {
    forall c | c in m1
      ensures c in m2 && m2[c] == m1[c]
    {
      RowMapAgrees(families, m1, m2, c);
    }
    forall c | c in m2
      ensures c in m1
    {
      RowMapAgrees(families, m2, m1, c);
    }
  }

  lemma RowMapAgrees(families: map<Bytes, seq<ReadItem>>, m1: map<Bytes, ReadItem>, m2: map<Bytes, ReadItem>, c: Bytes)
    requires FamiliesDisjoint(families)
    requires IsRowMap(families, m1) && IsRowMap(families, m2)
    requires c in m1
    ensures c in m2 && m2[c] == m1[c]
  {
    var f :| f in families && LastWith(families[f], c) == Some(m1[c]);
    assert c in m2;
    var g :| g in families && LastWith(families[g], c) == Some(m2[c]);
    SameFamily(families, f, g, c);
  }

  /** `rowMap[ti.Column].Value`: the bytes of the column's cell; an absent column reads as
      Go's zero ReadItem, whose Value is empty. */
  function Lookup(m: map<Bytes, ReadItem>, column: Bytes): (val: Bytes)
    ensures column !in m ==> val == []
  {
    if column in m then m[column].value else []
  }

  /** Over a row map, a column's bytes are the value of its last cell in some family that
      holds it, and empty when no family holds it. */
  lemma LookupCell(families: map<Bytes, seq<ReadItem>>, m: map<Bytes, ReadItem>, column: Bytes)
    requires IsRowMap(families, m)
    ensures (forall f :: f in families ==> LastWith(families[f], column).None?) ==> Lookup(m, column) == []
    ensures (exists f :: f in families && LastWith(families[f], column).Some?) ==>
              exists f :: f in families && LastWith(families[f], column).Some? &&
                Lookup(m, column) == LastWith(families[f], column).value.value
  {
    if exists f :: f in families && LastWith(families[f], column).Some? {
      assert column in m;
      var f :| f in families && LastWith(families[f], column) == Some(m[column]);
    }
  }

  /** parseVal's treatment of one field. The row-key test comes first, so a row-key field is
      never looked up as a column and a struct-typed row key is an error, not a recursion. */
  function ParsedField(key: Bytes, m: map<Bytes, ReadItem>, f: Field, toBool: Bytes -> bool): (r: Step)
    ensures r.err.Some? ==> f.info.rowKey || !f.value.Struct?
    decreases f
  {
    if f.info.rowKey then SetField(f, key, toBool)
    else if f.value.Struct? then
      Step(f.(value := Struct(ParsedFields(key, m, f.value.fields, toBool).fields)), None)
    else SetField(f, Lookup(m, f.info.column), toBool)
  }

  /** parseVal over a field list: fields in order, stopping at the first error, which is
      returned; the fields already handled keep their new values. */
  function ParsedFields(key: Bytes, m: map<Bytes, ReadItem>, fs: seq<Field>, toBool: Bytes -> bool): (r: Parsed)
    ensures |r.fields| == |fs|
    decreases fs
  {
    if fs == [] then Parsed([], None)
    else
      var s := ParsedField(key, m, fs[0], toBool);
      if s.err.Some? then Parsed([s.field] + fs[1..], s.err)
      else
        var rest := ParsedFields(key, m, fs[1..], toBool);
        Parsed([s.field] + rest.fields, rest.err)
  }

  /** Decoding a field changes its value only: name, tag and kind stay (a nested struct
      stays a struct). */
  lemma ParsedFieldShape(key: Bytes, m: map<Bytes, ReadItem>, f: Field, toBool: Bytes -> bool)
    ensures SameShape(f, ParsedField(key, m, f, toBool).field)
  {
  }

  /** parseVal never changes the record's shape: same number of fields, each of the same
      name, tag and kind. */
  lemma {:induction false} ParsedFieldsShape(key: Bytes, m: map<Bytes, ReadItem>, fs: seq<Field>, toBool: Bytes -> bool)
    ensures SameShapes(fs, ParsedFields(key, m, fs, toBool).fields)
  {
    if fs != [] {
      var s := ParsedField(key, m, fs[0], toBool);
      var r := ParsedFields(key, m, fs, toBool);
      ParsedFieldShape(key, m, fs[0], toBool);
      if s.err.None? {
        var rest := ParsedFields(key, m, fs[1..], toBool);
        ParsedFieldsShape(key, m, fs[1..], toBool);
        assert r.fields == [s.field] + rest.fields;
        forall j | 1 <= j < |fs|
          ensures SameShape(fs[j], r.fields[j])
        {
          TailAt(fs, j);
          TailAt(r.fields, j);
        }
      } else {
        assert r.fields == [s.field] + fs[1..];
      }
    }
  }

  /** The index of the first field whose handling fails, or |fs| when none does. */
  function FirstFailure(key: Bytes, m: map<Bytes, ReadItem>, fs: seq<Field>, toBool: Bytes -> bool): (k: nat)
    ensures k <= |fs|
    ensures forall j :: 0 <= j < k ==> ParsedField(key, m, fs[j], toBool).err.None?
    ensures k < |fs| ==> ParsedField(key, m, fs[k], toBool).err.Some?
  {
    if fs == [] then 0
    else if ParsedField(key, m, fs[0], toBool).err.Some? then 0
    else 1 + FirstFailure(key, m, fs[1..], toBool)
  }

  /** First error stops the walk, no rollback: every field up to and including the first
      failing one is handled as ParsedField says, every later field is untouched, and the
      error returned is the failing field's (none when no field fails). */
  lemma StopsAtFirstFailure(key: Bytes, m: map<Bytes, ReadItem>, fs: seq<Field>, toBool: Bytes -> bool)
    ensures var r, k := ParsedFields(key, m, fs, toBool), FirstFailure(key, m, fs, toBool);
      r.err == (if k < |fs| then ParsedField(key, m, fs[k], toBool).err else None) &&
      forall j :: 0 <= j < |fs| ==>
        r.fields[j] == if j <= k then ParsedField(key, m, fs[j], toBool).field else fs[j]
  {
    FailureError(key, m, fs, toBool);
    FailureFields(key, m, fs, toBool);
  }

  lemma {:induction false} FailureError(key: Bytes, m: map<Bytes, ReadItem>, fs: seq<Field>, toBool: Bytes -> bool)
    ensures var k := FirstFailure(key, m, fs, toBool);
      ParsedFields(key, m, fs, toBool).err == if k < |fs| then ParsedField(key, m, fs[k], toBool).err else None
  {
    if fs != [] {
      var s := ParsedField(key, m, fs[0], toBool);
      var r, k := ParsedFields(key, m, fs, toBool), FirstFailure(key, m, fs, toBool);
      if s.err.None? {
        FailureError(key, m, fs[1..], toBool);
        var rest, k' := ParsedFields(key, m, fs[1..], toBool), FirstFailure(key, m, fs[1..], toBool);
        assert r.err == rest.err && k == k' + 1;
        if k' < |fs| - 1 {
          TailAt(fs, k);
        }
      } else {
        assert r.err == s.err && k == 0;
      }
    }
  }

  lemma {:induction false} FailureFields(key: Bytes, m: map<Bytes, ReadItem>, fs: seq<Field>, toBool: Bytes -> bool)
    ensures var r, k := ParsedFields(key, m, fs, toBool), FirstFailure(key, m, fs, toBool);
      forall j :: 0 <= j < |fs| ==>
        r.fields[j] == if j <= k then ParsedField(key, m, fs[j], toBool).field else fs[j]
  {
    if fs != [] {
      var s := ParsedField(key, m, fs[0], toBool);
      var r, k := ParsedFields(key, m, fs, toBool), FirstFailure(key, m, fs, toBool);
      if s.err.None? {
        FailureFields(key, m, fs[1..], toBool);
        var rest, k' := ParsedFields(key, m, fs[1..], toBool), FirstFailure(key, m, fs[1..], toBool);
        assert r.fields == [s.field] + rest.fields;
        assert r.fields[1..] == rest.fields;
        assert k == k' + 1;
        forall j | 0 <= j < |fs|
          ensures r.fields[j] == if j <= k then ParsedField(key, m, fs[j], toBool).field else fs[j]
        {
          if j > 0 {
            TailAt(fs, j);
            TailAt(r.fields, j);
          }
        }
      } else {
        assert r.fields == [s.field] + fs[1..];
        assert k == 0;
      }
    }
  }

  /** A field is reached when every field before it was handled without error. */
  ghost predicate Reached(key: Bytes, m: map<Bytes, ReadItem>, fs: seq<Field>, i: nat, toBool: Bytes -> bool)
    requires i < |fs|
  {
    forall j :: 0 <= j < i ==> ParsedField(key, m, fs[j], toBool).err.None?
  }

  lemma ReachedField(key: Bytes, m: map<Bytes, ReadItem>, fs: seq<Field>, i: nat, toBool: Bytes -> bool)
    requires i < |fs| && Reached(key, m, fs, i, toBool)
    ensures ParsedFields(key, m, fs, toBool).fields[i] == ParsedField(key, m, fs[i], toBool).field
  {
    StopsAtFirstFailure(key, m, fs, toBool);
    var k := FirstFailure(key, m, fs, toBool);
    assert i <= k;
  }

  /** Row-key binding: a reached row-key field is set from the row key (a string field
      becomes the key itself), whatever cells the row has. */
  lemma RowKeyBinding(key: Bytes, m: map<Bytes, ReadItem>, fs: seq<Field>, i: nat, toBool: Bytes -> bool)
    requires i < |fs| && Reached(key, m, fs, i, toBool) && fs[i].info.rowKey
    ensures ParsedFields(key, m, fs, toBool).fields[i].value == SetValue(fs[i].value, key, toBool).value
    ensures fs[i].value.Str? ==> ParsedFields(key, m, fs, toBool).fields[i].value == Str(key)
  {
    ReachedField(key, m, fs, i, toBool);
  }

  /** Every other leaf field, tagged or not, is decoded from the cell of its column; when the
      row has no such cell it is decoded from no bytes (a string becomes empty). */
  lemma ColumnFieldDecoded(key: Bytes, m: map<Bytes, ReadItem>, fs: seq<Field>, i: nat, toBool: Bytes -> bool)
    requires i < |fs| && Reached(key, m, fs, i, toBool)
    requires !fs[i].info.rowKey && !fs[i].value.Struct?
    ensures ParsedFields(key, m, fs, toBool).fields[i].value
         == SetValue(fs[i].value, Lookup(m, fs[i].info.column), toBool).value
    ensures fs[i].info.column !in m ==>
              ParsedFields(key, m, fs, toBool).fields[i].value == SetValue(fs[i].value, [], toBool).value
  {
    ReachedField(key, m, fs, i, toBool);
  }

  /** A reached nested struct is walked with the same key and map. */
  lemma NestedFieldWalked(key: Bytes, m: map<Bytes, ReadItem>, fs: seq<Field>, i: nat, toBool: Bytes -> bool)
    requires i < |fs| && Reached(key, m, fs, i, toBool)
    requires !fs[i].info.rowKey && fs[i].value.Struct?
    ensures ParsedFields(key, m, fs, toBool).fields[i].value
         == Struct(ParsedFields(key, m, fs[i].value.fields, toBool).fields)
  {
    ReachedField(key, m, fs, i, toBool);
  }

  /** Errors inside nested structs are swallowed: an error ReadRow returns always comes from
      a top-level leaf or row-key field, whose setValue failed, and every field after it is
      left as it was. */
  lemma NestedErrorsSwallowed(key: Bytes, m: map<Bytes, ReadItem>, fs: seq<Field>, toBool: Bytes -> bool)
    requires ParsedFields(key, m, fs, toBool).err.Some?
    ensures var k := FirstFailure(key, m, fs, toBool);
      k < |fs| && (fs[k].info.rowKey || !fs[k].value.Struct?) &&
      ParsedFields(key, m, fs, toBool).fields[k + 1..] == fs[k + 1..]
  {
    StopsAtFirstFailure(key, m, fs, toBool);
    var r, k := ParsedFields(key, m, fs, toBool), FirstFailure(key, m, fs, toBool);
    assert k < |fs|;
    assert forall j :: k + 1 <= j < |fs| ==> r.fields[j] == fs[j];
  }

  /** A reached integer field whose column is absent fails with io.EOF and is zeroed. */
  lemma AbsentIntegerFails(key: Bytes, m: map<Bytes, ReadItem>, fs: seq<Field>, i: nat, toBool: Bytes -> bool)
    requires i < |fs| && Reached(key, m, fs, i, toBool)
    requires !fs[i].info.rowKey && fs[i].value.Integer? && fs[i].info.column !in m
    ensures ParsedFields(key, m, fs, toBool).err == Some(EOF)
    ensures ParsedFields(key, m, fs, toBool).fields[i].value == Integer(fs[i].value.kind, 0)
  {
    var f := fs[i];
    ShortBufferZeroes(f.value.kind, f.value.n, [], toBool);
    assert ParsedField(key, m, f, toBool) == Step(f.(value := Integer(f.value.kind, 0)), Some(EOF));
    StopsAtFirstFailure(key, m, fs, toBool);
    assert FirstFailure(key, m, fs, toBool) == i;
  }

  /** In a one-family row where a column repeats, the later cell is the one decoded. */
  lemma LaterCellWins(key: Bytes, fam: Bytes, items: seq<ReadItem>, m: map<Bytes, ReadItem>, fs: seq<Field>, i: nat, toBool: Bytes -> bool)
    requires IsRowMap(map[fam := items], m)
    requires i < |fs| && Reached(key, m, fs, i, toBool)
    requires !fs[i].info.rowKey && !fs[i].value.Struct?
    ensures var k := LastIndex(items, fs[i].info.column);
      ParsedFields(key, m, fs, toBool).fields[i].value
        == SetValue(fs[i].value, if k >= 0 then items[k].value else [], toBool).value
  {
    OneFamilyRowMap(fam, items, m, fs[i].info.column);
    ColumnFieldDecoded(key, m, fs, i, toBool);
  }

  /** A size measure for a field tree, for the termination of the recursive method. */
  function Size(fs: seq<Field>): nat {
    if fs == [] then 0 else 1 + FieldSize(fs[0]) + Size(fs[1..])
  }

  function FieldSize(f: Field): nat {
    if f.value.Struct? then Size(f.value.fields) else 0
  }

  lemma {:induction false} SizeAt(fs: seq<Field>, i: nat)
    requires i < |fs|
    ensures FieldSize(fs[i]) < Size(fs)
  {
    if i > 0 {
      SizeAt(fs[1..], i - 1);
    }
  }

  /** One step of ParsedFields on the suffix of `fs` that starts at `i`. */
  lemma ParsedSuffix(key: Bytes, m: map<Bytes, ReadItem>, fs: seq<Field>, i: nat, toBool: Bytes -> bool)
    requires i < |fs|
    ensures var s := ParsedField(key, m, fs[i], toBool);
      ParsedFields(key, m, fs[i..], toBool)
        == if s.err.Some? then Parsed([s.field] + fs[i + 1..], s.err)
           else Parsed([s.field] + ParsedFields(key, m, fs[i + 1..], toBool).fields,
                       ParsedFields(key, m, fs[i + 1..], toBool).err)
  {
    assert fs[i..][0] == fs[i] && fs[i..][1..] == fs[i + 1..];
  }

  /** The body of parseVal's loop for one field: the row-key test first, then the recursion
      into a nested struct (whose error is dropped), then the column's cell. */
  method ParseField(key: Bytes, rowMap: map<Bytes, ReadItem>, f: Field, toBool: Bytes -> bool)
    returns (g: Field, e: Option<DecodeError>)
    ensures Step(g, e) == ParsedField(key, rowMap, f, toBool)
    decreases FieldSize(f), 1
  {
    if f.info.rowKey {
      var a := SetValue(f.value, key, toBool);
      g, e := f.(value := a.value), a.err;
    } else if f.value.Struct? {
      var sub, _ := ParseVal(key, rowMap, f.value.fields, toBool);
      g, e := f.(value := Struct(sub)), None;
    } else {
      var val := if f.info.column in rowMap then rowMap[f.info.column].value else [];
      var a := SetValue(f.value, val, toBool);
      g, e := f.(value := a.value), a.err;
    }
  }

  /** parseVal (decode.go): the loop over the fields, in order, stopping at the first error. */
  method ParseVal(key: Bytes, rowMap: map<Bytes, ReadItem>, fs: seq<Field>, toBool: Bytes -> bool)
    returns (out: seq<Field>, err: Option<DecodeError>)
    ensures Parsed(out, err) == ParsedFields(key, rowMap, fs, toBool)
    decreases Size(fs), 0
  {
    out, err := fs, None;
    if |fs| == 0 {
      return;
    }
    ghost var whole := ParsedFields(key, rowMap, fs, toBool);
    var i := 0;
    while i < |fs|
      invariant 0 <= i <= |fs| && |out| == |fs|
      invariant out[i..] == fs[i..]
      invariant whole.fields == out[..i] + ParsedFields(key, rowMap, fs[i..], toBool).fields
      invariant whole.err == ParsedFields(key, rowMap, fs[i..], toBool).err
    {
      ParsedSuffix(key, rowMap, fs, i, toBool);
      ghost var cur := ParsedFields(key, rowMap, fs[i..], toBool);
      ghost var rest := ParsedFields(key, rowMap, fs[i + 1..], toBool);
      SizeAt(fs, i);
      var g, e := ParseField(key, rowMap, fs[i], toBool);
      Replace(out, i, g);
      out := out[i := g];
      if e.Some? {
        err := e;
        SplitAround(out, i);
        return;
      }
      assert cur == Parsed([g] + rest.fields, rest.err);
      PrefixGrows(out, i, rest.fields);
      assert whole.fields == out[..i + 1] + rest.fields && whole.err == rest.err;
      i := i + 1;
    }
    assert out[..i] == out;
  }

  /** ReadRow (decode.go): builds the column map, then walks the record's fields, filling the
      caller's struct in place. */
  method ReadRow(row: Row, s: Record, toBool: Bytes -> bool) returns (err: Option<DecodeError>)
    modifies s
    ensures exists m :: IsRowMap(row.families, m) &&
              Parsed(s.fields, err) == ParsedFields(row.key, m, old(s.fields), toBool)
  {
    var rowMap := BuildRowMap(row.families);
    var out;
    out, err := ParseVal(row.key, rowMap, s.fields, toBool);
    s.fields := out;
    assert IsRowMap(row.families, rowMap);
  }
}
