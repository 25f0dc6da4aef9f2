/** Cells as Bigtable returns them, and the column-name split that turns a full column
    ("family:qualifier") into its qualifier: strings.Split on the delimiter, last piece. */
module Columns {
  import opened BigEndian

  /** One returned cell (bigtable.ReadItem): the row key, the full column name and the value. */
  datatype ReadItem = ReadItem(row: Bytes, column: Bytes, value: Bytes)

  /** strings.Split(s, sep) for a one-byte separator: the pieces between separators,
      always at least one (the empty string splits into one empty piece). */
  function Split(s: Bytes, sep: byte): (parts: seq<Bytes>)
    ensures |parts| >= 1
    ensures forall i :: 0 <= i < |parts| ==> sep !in parts[i]
  {
    if s == [] then [[]]
    else
      var rest := Split(s[1..], sep);
      if s[0] == sep then [[]] + rest
      else [[s[0]] + rest[0]] + rest[1..]
  }

  /** strings.Join(parts, sep): the inverse of Split. */
  function Join(parts: seq<Bytes>, sep: byte): (s: Bytes)
    requires |parts| >= 1
  {
    if |parts| == 1 then parts[0] else parts[0] + [sep] + Join(parts[1..], sep)
  }

  /** Joining the pieces of a split gives back the original string. */
  lemma {:induction false} JoinSplit(s: Bytes, sep: byte)
    ensures Join(Split(s, sep), sep) == s
  {
    if s != [] {
      var rest := Split(s[1..], sep);
      JoinSplit(s[1..], sep);
      if s[0] == sep {
        assert ([[]] + rest)[1..] == rest;
      } else {
        var parts := [[s[0]] + rest[0]] + rest[1..];
        if |rest| > 1 {
          assert parts[1..] == rest[1..];
        }
      }
    }
  }

  /** Splitting pieces joined by a separator they do not contain gives back the pieces. */
  lemma {:induction false} SplitJoin(parts: seq<Bytes>, sep: byte)
    requires |parts| >= 1
    requires forall i :: 0 <= i < |parts| ==> sep !in parts[i]
    ensures Split(Join(parts, sep), sep) == parts
  {
    if |parts| == 1 {
      SplitNoSeparator(parts[0], sep);
    } else {
      SplitJoin(parts[1..], sep);
      SplitPrefix(parts[0], [sep] + Join(parts[1..], sep), sep);
      assert Join(parts, sep) == parts[0] + ([sep] + Join(parts[1..], sep));
      assert ([sep] + Join(parts[1..], sep))[1..] == Join(parts[1..], sep);
    }
  }

  /** A string without the separator splits into itself. */
  lemma {:induction false} SplitNoSeparator(s: Bytes, sep: byte)
    requires sep !in s
    ensures Split(s, sep) == [s]
  {
    if s != [] {
      SplitNoSeparator(s[1..], sep);
      assert [s[0]] + s[1..] == s;
    }
  }

  /** Splitting `p + t` where `p` has no separator and `t` starts with one: the first piece
      is `p` and the rest comes from `t`. */
  lemma {:induction false} SplitPrefix(p: Bytes, t: Bytes, sep: byte)
    requires sep !in p
    requires |t| >= 1 && t[0] == sep
    ensures Split(p + t, sep) == [p] + Split(t[1..], sep)
  {
    if p != [] {
      assert (p + t)[1..] == p[1..] + t;
      SplitPrefix(p[1..], t, sep);
      assert [p[0]] + p[1..] == p;
    } else {
      assert p + t == t;
    }
  }

  /** The column qualifier of a full column name: the last piece of the split. */
  function Qualifier(column: Bytes, sep: byte): (q: Bytes)
    ensures sep !in q
  {
    var parts := Split(column, sep);
    parts[|parts| - 1]
  }

  /** The independent description of "the text after the last delimiter": a suffix of the
      column with no delimiter in it, preceded by a delimiter or by nothing. */
  predicate IsLastSegment(column: Bytes, sep: byte, q: Bytes) {
    sep !in q &&
    |q| <= |column| && column[|column| - |q|..] == q &&
    (|q| == |column| || column[|column| - |q| - 1] == sep)
  }

  /** Joining pieces ends in the last piece, after a separator when there are several. */
  lemma {:induction false} JoinLast(parts: seq<Bytes>, sep: byte)
    requires |parts| >= 2
    ensures Join(parts, sep) == Join(parts[..|parts| - 1], sep) + [sep] + parts[|parts| - 1]
  {
    if |parts| > 2 {
      JoinLast(parts[1..], sep);
      assert parts[1..][..|parts| - 2] == parts[..|parts| - 1][1..];
    }
  }

  /** Qualifier returns exactly the text after the last delimiter (the whole column when
      there is none), and that text is unique. */
  lemma QualifierIsLastSegment(column: Bytes, sep: byte, q: Bytes)
    ensures IsLastSegment(column, sep, Qualifier(column, sep))
    ensures IsLastSegment(column, sep, q) ==> q == Qualifier(column, sep)
  {
    var parts := Split(column, sep);
    var last := parts[|parts| - 1];
    JoinSplit(column, sep);
    if |parts| >= 2 {
      JoinLast(parts, sep);
      var prefix := Join(parts[..|parts| - 1], sep) + [sep];
      assert column == prefix + last;
      assert column[|column| - |last|..] == last;
      assert column[|column| - |last| - 1] == prefix[|prefix| - 1] == sep;
    } else {
      assert column == last;
    }
    if IsLastSegment(column, sep, q) {
      LastSegmentUnique(column, sep, q, last);
    }
  }

  /** A column written as "family" + delimiter + "qualifier", with no delimiter in the
      qualifier, has exactly that qualifier. */
  lemma QualifierOfColumn(family: Bytes, sep: byte, q: Bytes)
    requires sep !in q
    ensures Qualifier(family + [sep] + q, sep) == q
  {
    var column := family + [sep] + q;
    assert column[|column| - |q|..] == q;
    assert column[|column| - |q| - 1] == sep;
    QualifierIsLastSegment(column, sep, q);
  }

  /** Two candidate last segments of the same column are equal. */
  lemma LastSegmentUnique(column: Bytes, sep: byte, q1: Bytes, q2: Bytes)
    requires IsLastSegment(column, sep, q1) && IsLastSegment(column, sep, q2)
    ensures q1 == q2
  {
  }

  /** ReadColumnQualifier (decode.go): one qualifier per cell, in the cells' order, each
      the text after the last delimiter of the cell's column. */
  method ReadColumnQualifier(ris: seq<ReadItem>, sep: byte) returns (cqs: seq<Bytes>)
    ensures |cqs| == |ris|
    ensures forall i :: 0 <= i < |ris| ==> cqs[i] == Qualifier(ris[i].column, sep)
    ensures forall i :: 0 <= i < |ris| ==> IsLastSegment(ris[i].column, sep, cqs[i])
  {
    cqs := [];
    for i := 0 to |ris|
      invariant |cqs| == i
      invariant forall j :: 0 <= j < i ==> cqs[j] == Qualifier(ris[j].column, sep)
    {
      var cs := Split(ris[i].column, sep);
      cqs := cqs + [cs[|cs| - 1]];
    }
    forall i | 0 <= i < |ris|
      ensures IsLastSegment(ris[i].column, sep, cqs[i])
    {
      QualifierIsLastSegment(ris[i].column, sep, cqs[i]);
    }
  }
}
