/** Column identity. A column record is `{'table': t, 'column': c}`; it is
    stored, inserted into the indexes and used as a matrix label under the
    key `t + "." + c`, and a qualified name is split back at its last `.`. */
module Columns {
  import opened Text

  /** One catalogue column: the (dotted) table name and the column name. */
  datatype Column = Column(table: string, column: string)

  /** The key of a column: `f'{column["table"]}.{column["column"]}'`. */
  function Key(c: Column): string
  {
    c.table + "." + c.column
  }

  /** The (table, column) pair of a qualified name:
      `'.'.join(name.split('.')[:-1])` and `name.split('.')[-1]`. */
  function SplitQualified(name: string): (string, string)
  {
    var parts := SplitOn(name, '.');
    (Join(parts[..|parts| - 1], "."), parts[|parts| - 1])
  }

  /** The column part is the text after the last `.` (it holds no `.`) and
      the table part is everything before that `.`; a name without `.` has
      an empty table part and is the column part as a whole. */
  lemma SplitQualifiedAtLastDot(name: string)
    ensures '.' !in SplitQualified(name).1
    ensures '.' in name ==> SplitQualified(name).0 + "." + SplitQualified(name).1 == name
    ensures '.' !in name ==> SplitQualified(name) == ("", name)
  {
    var parts := SplitOn(name, '.');
    var m := |parts| - 1;
    SplitOnSingle(name, '.');
    if '.' in name {
      JoinSplitOn(name, '.');
      assert parts == parts[..m] + [parts[m]];
      JoinSnoc(parts[..m], parts[m], ".");
    }
  }

  /** Splitting a column's key gives the column back, provided the column
      name itself has no `.` (the table name may have any number). */
  lemma KeyRoundTrip(c: Column)
    requires '.' !in c.column
    ensures SplitQualified(Key(c)) == (c.table, c.column)
  {
    assert Key(c) == c.table + ['.'] + c.column;
    SplitOnAppend(c.table, c.column, '.');
    SplitOnSingle(c.column, '.');
    var parts := SplitOn(Key(c), '.');
    assert parts == SplitOn(c.table, '.') + [c.column];
    assert parts[..|parts| - 1] == SplitOn(c.table, '.');
    JoinSplitOn(c.table, '.');
  }
}
