/** The cases of the repository's own tests (decode_test.go), restated as facts about the
    model: a nested record read from a two-family row, a column qualifier, and the two error
    cases for a field whose column does not fit. */
module Scenarios {
  import opened Wrappers
  import opened BigEndian
  import opened Fields
  import opened ValueCodec
  import opened Columns
  import opened RowDecoder
  import opened ItemsDecoder

  const Colon: byte := 58  // ":"

  // ASCII byte strings used by the tests.
  const Fc: Bytes := [102, 99]  // "fc"
  const Test: Bytes := [116, 101, 115, 116]  // "test"
  const Test2: Bytes := [116, 101, 115, 116, 50]  // "test2"
  const RowKey: Bytes := [114, 111, 119, 107, 101, 121]  // "rowkey"
  const John: Bytes := [106, 111, 104, 110]  // "john"
  const JohnName: Bytes := [74, 111, 104, 110]  // "John"
  const Info: Bytes := [105, 110, 102, 111]  // "info"
  const Name: Bytes := [110, 97, 109, 101]  // "name"
  const Age: Bytes := [97, 103, 101]  // "age"
  const Address: Bytes := [97, 100, 100, 114, 101, 115, 115]  // "address"
  const Street: Bytes := [82, 97, 102, 108, 101, 115, 115, 32, 115, 116, 46]  // "Rafless st."
  const Tstr: Bytes := [116, 115, 116, 114]  // "tstr"
  const Hoge: Bytes := [104, 111, 103, 101]  // "hoge"

  /** A full column name "family:qualifier". */
  function Column(family: Bytes, qualifier: Bytes): Bytes {
    family + [Colon] + qualifier
  }

  /** TestReadColumnQualifiers: "fc:test" has qualifier "test", "fc:test2" has "test2". */
  lemma QualifierExample()
    ensures Qualifier(Column(Fc, Test), Colon) == Test
    ensures Qualifier(Column(Fc, Test2), Colon) == Test2
  {
    QualifierOfColumn(Fc, Colon, Test);
    QualifierOfColumn(Fc, Colon, Test2);
  }

  /** The field of TestReadRowErrorCase: an `int` tagged with the column "test", holding `n`. */
  function TestField(n: int): Field
    requires InRange(Int, n)
  {
    Field("T", true, TagInfo(false, Test), Integer(Int, n))
  }

  /** TestReadRowErrorCase, ReadItems: the cell's qualifier matches, but four bytes are too
      few for an `int`; the field, which held 7, is zeroed. */
  lemma ItemsErrorExample(toBool: Bytes -> bool)
    ensures ItemsRead([ReadItem(RowKey, Column(Fc, Test), Test)], [TestField(7)], Colon, toBool)
         == Parsed([TestField(0)], Some(UnexpectedEOF))
  {
    QualifierExample();
  }

  /** TestReadRowErrorCase, ReadRow: the map has "fc:test" but not "test", so the field is
      decoded from no bytes at all; the field, which held 7, is zeroed. */
  lemma RowErrorExample(toBool: Bytes -> bool)
    ensures ParsedFields(RowKey, map[Column(Fc, Test) := ReadItem(RowKey, Column(Fc, Test), Test)],
                         [TestField(7)], toBool)
         == Parsed([TestField(0)], Some(EOF))
  {
    assert Test != Column(Fc, Test);
    assert [TestField(7)][1..] == [];
  }

  /** TestReadRowErrorCase, unsupported type: a struct-typed row-key field is an error for both
      decoders, before any column is looked at. */
  lemma RowKeyStructExample(key: Bytes, m: map<Bytes, ReadItem>, ri: ReadItem, toBool: Bytes -> bool)
    ensures var f := Field("R", true, TagInfo(true, []), Struct([]));
      ParsedFields(key, m, [f], toBool).err == Some(UnsupportedType("struct")) &&
      ItemsRead([ri], [f], Colon, toBool).err == Some(UnsupportedType("struct"))
  {
  }

  /** TestReadRowNestedStruct: a row "john" with a family "info" holding the name and the
      age, and a family "address" holding the address. The age was written with
      PutUint32(16) into a five-byte buffer, so one zero byte trails the word. */
  function NameCell(): ReadItem { ReadItem(John, Column(Info, Name), JohnName) }
  function AgeCell(): ReadItem { ReadItem(John, Column(Info, Age), [0, 0, 0, 16, 0]) }
  function AddressCell(): ReadItem { ReadItem(John, Column(Address, Address), Street) }

  function PersonRow(): Row {
    Row(John, map[Info := [NameCell(), AgeCell()], Address := [AddressCell()]])
  }

  /** The Person record: a name, an int32 age and an untagged nested Address struct. */
  function Person(name: Bytes, age: int, address: Bytes): seq<Field> {
    [Field("Name", true, TagInfo(false, Column(Info, Name)), Str(name)),
     Field("Age", true, TagInfo(false, Column(Info, Age)), Integer(Int32, age)),
     Field("Address", false, TagInfo(false, []),
           Struct([Field("Address", true, TagInfo(false, Column(Address, Address)), Str(address))]))]
  }

  /** The three columns and the two families have different names. */
  lemma PersonNamesDistinct()
    ensures Column(Info, Name) != Column(Info, Age)
    ensures Column(Info, Name) != Column(Address, Address)
    ensures Column(Info, Age) != Column(Address, Address)
    ensures Info != Address
  {
    assert |Column(Info, Name)| == 9 && |Column(Info, Age)| == 8;
    assert |Column(Address, Address)| == 15;
    assert |Info| == 4 && |Address| == 7;
  }

  /** The map ReadRow builds from the Person row. */
  function PersonMap(): map<Bytes, ReadItem> {
    map[Column(Info, Name) := NameCell(), Column(Info, Age) := AgeCell(),
        Column(Address, Address) := AddressCell()]
  }

  lemma PersonMapLookup()
    ensures PersonMap().Keys == {Column(Info, Name), Column(Info, Age), Column(Address, Address)}
    ensures PersonMap()[Column(Info, Name)] == NameCell()
    ensures PersonMap()[Column(Info, Age)] == AgeCell()
    ensures PersonMap()[Column(Address, Address)] == AddressCell()
  {
    PersonNamesDistinct();
  }

  /** Every entry of the map is the row's cell of that column. */
  lemma PersonMapEntry(m: map<Bytes, ReadItem>, c: Bytes)
    requires IsRowMap(PersonRow().families, m) && c in m
    ensures c in PersonMap() && m[c] == PersonMap()[c]
  {
    var families := PersonRow().families;
    var f :| f in families && LastWith(families[f], c) == Some(m[c]);
    var items: seq<ReadItem> := families[f];
    var k := LastIndex(items, c);
    assert m[c] == items[k] && m[c].column == c;
    PersonMapLookup();
    if f == Info {
      assert items == [NameCell(), AgeCell()];
      if k == 0 {
        assert c == Column(Info, Name) && m[c] == NameCell();
      } else {
        assert c == Column(Info, Age) && m[c] == AgeCell();
      }
    } else {
      assert items == [AddressCell()];
      assert c == Column(Address, Address) && m[c] == AddressCell();
    }
  }

  /** Every column of the row is in the map. */
  lemma PersonMapHas(m: map<Bytes, ReadItem>, c: Bytes)
    requires IsRowMap(PersonRow().families, m) && c in PersonMap()
    ensures c in m
  {
    var families := PersonRow().families;
    var f: Bytes := if c == Column(Address, Address) then Address else Info;
    var j: nat := if c == Column(Info, Age) then 1 else 0;
    PersonNamesDistinct();
    var items: seq<ReadItem> := families[f];
    assert items[j].column == c;
    assert LastIndex(items, c) >= j;
  }

  /** Whatever order the families are visited in, the map holds exactly the three cells. */
  lemma PersonRowMap(m: map<Bytes, ReadItem>)
    requires IsRowMap(PersonRow().families, m)
    ensures m == PersonMap()
  {
    forall c | c in m
      ensures c in PersonMap() && m[c] == PersonMap()[c]
    {
      PersonMapEntry(m, c);
    }
    forall c | c in PersonMap()
      ensures c in m
    {
      PersonMapHas(m, c);
    }
  }

  /** The age cell: four bytes of big-endian 16, then one byte that is ignored. */
  lemma AgeDecoded(toBool: Bytes -> bool)
    ensures SetValue(Integer(Int32, 0), AgeCell().value, toBool) == Assigned(Integer(Int32, 16), None)
  {
    assert Encode(16, 4) == [0, 0, 0, 16] by {
      assert Encode(0, 1) == [0] && Encode(0, 2) == [0, 0] && Encode(0, 3) == [0, 0, 0];
    }
    assert AgeCell().value == EncodeInt(Int32, 16) + [0];
    IntegerRoundTrip(Int32, 0, 16, [0], toBool);
  }

  /** The nested Address struct is walked with the same map. */
  lemma AddressWalked(toBool: Bytes -> bool)
    ensures ParsedFields(John, PersonMap(), Person([], 0, [])[2].value.fields, toBool)
         == Parsed(Person(JohnName, 16, Street)[2].value.fields, None)
  {
    PersonNamesDistinct();
    var inner := Person([], 0, [])[2].value.fields;
    assert inner[1..] == [];
  }

  /** Each of the three top-level fields is handled without error. */
  lemma PersonStep(i: nat, toBool: Bytes -> bool)
    requires i < 3
    ensures ParsedField(John, PersonMap(), Person([], 0, [])[i], toBool) == Step(Person(JohnName, 16, Street)[i], None)
  {
    PersonNamesDistinct();
    if i == 1 {
      AgeDecoded(toBool);
    } else if i == 2 {
      AddressWalked(toBool);
    }
  }

  /** The fields decoded against the map, step by step. */
  lemma PersonFields(toBool: Bytes -> bool)
    ensures ParsedFields(John, PersonMap(), Person([], 0, []), toBool)
         == Parsed(Person(JohnName, 16, Street), None)
  {
    var m, fs, want := PersonMap(), Person([], 0, []), Person(JohnName, 16, Street);
    PersonStep(2, toBool);
    ParsedSuffix(John, m, fs, 2, toBool);
    assert fs[3..] == [];
    assert ParsedFields(John, m, fs[2..], toBool) == Parsed(want[2..], None);
    PersonStep(1, toBool);
    ParsedSuffix(John, m, fs, 1, toBool);
    assert ParsedFields(John, m, fs[1..], toBool) == Parsed(want[1..], None);
    PersonStep(0, toBool);
    ParsedSuffix(John, m, fs, 0, toBool);
    assert fs[0..] == fs;
  }

  /** The nested struct is walked, the trailing byte of the age is ignored, and no error is
      returned. */
  lemma PersonExample(m: map<Bytes, ReadItem>, toBool: Bytes -> bool)
    requires IsRowMap(PersonRow().families, m)
    ensures ParsedFields(John, m, Person([], 0, []), toBool)
         == Parsed(Person(JohnName, 16, Street), None)
  {
    PersonRowMap(m);
    PersonFields(toBool);
  }

  /** TestReadRowNestedStruct end to end: a fresh Person record, filled by ReadRow. */
  method ReadPerson(toBool: Bytes -> bool) returns (fields: seq<Field>, err: Option<DecodeError>)
    ensures fields == Person(JohnName, 16, Street) && err == None
  {
    var s := new Record(Person([], 0, []));
    err := ReadRow(PersonRow(), s, toBool);
    fields := s.fields;
    ghost var m :| IsRowMap(PersonRow().families, m) &&
                   Parsed(fields, err) == ParsedFields(John, m, Person([], 0, []), toBool);
    PersonExample(m, toBool);
  }

  /** TestRead's field TString, tagged "fc:tstr", and the cell that carries "hoge" for it. */
  function TString(): Field {
    Field("TString", true, TagInfo(false, Column(Fc, Tstr)), Str([]))
  }

  function TStringCell(key: Bytes): ReadItem {
    ReadItem(key, Column(Fc, Tstr), Hoge)
  }

  /** TestRead: ReadRow finds "fc:tstr" in its map and fills the field, but ReadItems compares
      the tag with the qualifier "tstr" and never writes it. The ReadItems subtest can pass
      only because it reuses the record the ReadRow subtest already filled. */
  lemma TStringExample(key: Bytes, toBool: Bytes -> bool)
    ensures ParsedFields(key, map[Column(Fc, Tstr) := TStringCell(key)], [TString()], toBool)
         == Parsed([TString().(value := Str(Hoge))], None)
    ensures ItemsRead([TStringCell(key)], [TString()], Colon, toBool) == Parsed([TString()], None)
  {
    assert [TString()][1..] == [];
    QualifierOfColumn(Fc, Colon, Tstr);
    assert Tstr != Column(Fc, Tstr);
  }
}
