/** Extraction of scan events from full and partial rows. */
module Events {
  import opened Option
  import opened Utf8

  const NON_TEXT_TYPES: set<string> := {
    "bool", "int2", "int4", "int8", "float4", "float8", "numeric", "oid", "bytea", "uuid", "date",
    "time", "timetz", "timestamp", "timestamptz", "interval"
  }

  predicate IsScannableType(typeName: string) { typeName !in NON_TEXT_TYPES }

  /** A cell that prints, or one of the two kinds that do not. */
  datatype Cell = Null | Bytes | Printable(text: Text)

  function CellToString(c: Cell): Option<Text> { if c.Printable? then Some(c.text) else None }

  datatype ColumnSchema = ColumnSchema(name: string, typeName: string, primaryKey: bool)

  datatype ColumnValue = ColumnValue(name: string, typeName: string, value: Option<Text>)

  datatype ScanEvent = ScanEvent(database: string, schemaName: string, tableName: string,
                                 columns: seq<ColumnValue>, primaryKeys: seq<(string, bytes)>, commitLsn: nat)

  type Pair = (ColumnSchema, Cell)

  function ColumnOf(p: Pair): ColumnValue
  {
    ColumnValue(p.0.name, p.0.typeName, if IsScannableType(p.0.typeName) then CellToString(p.1) else None)
  }

  /** The pair contributes a primary-key value. */
  predicate HasKey(p: Pair) { p.0.primaryKey && CellToString(p.1).Some? }

  function Columns(pairs: seq<Pair>): (r: seq<ColumnValue>)
    ensures |r| == |pairs| && forall k :: 0 <= k < |r| ==> r[k] == ColumnOf(pairs[k])
  {
    if pairs == [] then [] else Columns(pairs[..|pairs| - 1]) + [ColumnOf(pairs[|pairs| - 1])]
  }

  function Keys(pairs: seq<Pair>): seq<(string, bytes)>
  {
    if pairs == [] then []
    else
      var p := pairs[|pairs| - 1];
      Keys(pairs[..|pairs| - 1]) + if HasKey(p) then [(p.0.name, p.1.text)] else []
  }

  method Extract(pairs: seq<Pair>) returns (columns: seq<ColumnValue>, primaryKeys: seq<(string, bytes)>)
    ensures columns == Columns(pairs) && primaryKeys == Keys(pairs)
  {
    columns, primaryKeys := [], [];
    for i := 0 to |pairs|
      invariant columns == Columns(pairs[..i]) && primaryKeys == Keys(pairs[..i])
    {
      assert pairs[..i + 1][..i] == pairs[..i];
      var (col, cell) := pairs[i];
      var value := if IsScannableType(col.typeName) then CellToString(cell) else None;
      if col.primaryKey && CellToString(cell).Some? {
        primaryKeys := primaryKeys + [(col.name, CellToString(cell).value)];
      }
      columns := columns + [ColumnValue(col.name, col.typeName, value)];
    }
    assert pairs[..|pairs|] == pairs;
  }

  // ----- rows

  /** `zip`, which ends with the shorter sequence. */
  function Zip<S, T>(s: seq<S>, t: seq<T>): (r: seq<(S, T)>)
    ensures |r| == (if |s| <= |t| then |s| else |t|)
    ensures forall k :: 0 <= k < |r| ==> r[k] == (s[k], t[k])
  {
    if s == [] || t == [] then [] else [(s[0], t[0])] + Zip(s[1..], t[1..])
  }

  /** The elements whose positions are not missing. */
  function Present<T>(s: seq<T>, missing: set<nat>): seq<T>
  {
    if s == [] then []
    else Present(s[..|s| - 1], missing) + if |s| - 1 in missing then [] else [s[|s| - 1]]
  }

  datatype UpdatedRow = Full(values: seq<Cell>) | Partial(values: seq<Cell>, missing: seq<nat>)

  function RowPairs(schema: seq<ColumnSchema>, row: UpdatedRow): seq<Pair>
  {
    match row
    case Full(values) => Zip(schema, values)
    case Partial(values, missing) => Zip(Present(schema, set i | i in missing), values)
  }

  method FromUpdate(schema: seq<ColumnSchema>, row: UpdatedRow, database: string, schemaName: string,
                    tableName: string, commitLsn: nat) returns (event: ScanEvent)
    ensures event == ScanEvent(database, schemaName, tableName, Columns(RowPairs(schema, row)),
                               Keys(RowPairs(schema, row)), commitLsn)
  {
    var columns, primaryKeys := Extract(RowPairs(schema, row));
    event := ScanEvent(database, schemaName, tableName, columns, primaryKeys, commitLsn);
  }

  /** Filtering the columns and zipping with the present cells pairs each with its own. */
  lemma {:induction false} PresentZip<S, T>(s: seq<S>, t: seq<T>, missing: set<nat>)
    requires |s| == |t|
    ensures |Present(s, missing)| == |Present(t, missing)|
    ensures Zip(Present(s, missing), Present(t, missing)) == Present(Zip(s, t), missing)
  {
    if s != [] {
      var n := |s| - 1;
      PresentZip(s[..n], t[..n], missing);
      assert Zip(s, t)[..n] == Zip(s[..n], t[..n]);
    }
  }

  lemma {:induction false} PresentColumns(pairs: seq<Pair>, missing: set<nat>)
    ensures Columns(Present(pairs, missing)) == Present(Columns(pairs), missing)
  {
    if pairs != [] {
      var n := |pairs| - 1;
      PresentColumns(pairs[..n], missing);
      assert Columns(pairs)[..n] == Columns(pairs[..n]);
      ColumnsAppend(Present(pairs[..n], missing), if n in missing then [] else [pairs[n]]);
    }
  }

  lemma ColumnsAppend(a: seq<Pair>, b: seq<Pair>)
    ensures Columns(a + b) == Columns(a) + Columns(b)
  {
  }

  /** A partial row yields the columns of the full row with the missing positions removed,
      and the same primary keys exactly if no missing position holds a key value. */
  lemma PartialAligned(schema: seq<ColumnSchema>, cells: seq<Cell>, missing: seq<nat>)
    requires |schema| == |cells|
    ensures var gone := set i | i in missing;
      var full, part := RowPairs(schema, Full(cells)), RowPairs(schema, Partial(Present(cells, gone), missing));
      && Columns(part) == Present(Columns(full), gone)
      && (Keys(part) == Keys(full) <==> forall i :: 0 <= i < |full| && i in gone ==> !HasKey(full[i]))
  {
    var gone := set i | i in missing;
    PresentZip(schema, cells, gone);
    PresentColumns(Zip(schema, cells), gone);
    PresentKeys(Zip(schema, cells), gone);
  }

  predicate NoKeyMissing(pairs: seq<Pair>, missing: set<nat>)
  {
    forall i :: 0 <= i < |pairs| && i in missing ==> !HasKey(pairs[i])
  }

  lemma {:induction false} PresentKeys(pairs: seq<Pair>, missing: set<nat>)
    ensures NoKeyMissing(pairs, missing) ==> Keys(Present(pairs, missing)) == Keys(pairs)
    ensures !NoKeyMissing(pairs, missing) ==> |Keys(Present(pairs, missing))| < |Keys(pairs)|
  {
    if pairs != [] {
      var n := |pairs| - 1;
      PresentKeys(pairs[..n], missing);
      assert NoKeyMissing(pairs, missing) <==>
        NoKeyMissing(pairs[..n], missing) && (n in missing ==> !HasKey(pairs[n]));
      var kept := Present(pairs, missing);
      if n !in missing {
        assert kept[..|kept| - 1] == Present(pairs[..n], missing);
      } else {
        assert kept == Present(pairs[..n], missing);
      }
    }
  }

  /** What an event is made of: for every cell a column with its name and type, and a value
      exactly if the type is scanned and the cell prints; and a key pair for every printing cell
      of a primary-key column, and no other. */
  lemma {:induction false} EventExact(pairs: seq<Pair>)
    ensures |Columns(pairs)| == |pairs|
    ensures forall k :: 0 <= k < |pairs| ==>
      var c, (col, cell) := Columns(pairs)[k], pairs[k];
      && c.name == col.name && c.typeName == col.typeName
      && (c.value.Some? <==> col.typeName !in NON_TEXT_TYPES && cell.Printable?)
      && (c.value.Some? ==> c.value.value == cell.text)
    ensures forall kv :: kv in Keys(pairs) <==>
      exists k :: 0 <= k < |pairs| && pairs[k].0.primaryKey && pairs[k].1.Printable?
               && kv == (pairs[k].0.name, pairs[k].1.text)
  {
    if pairs != [] {
      EventExact(pairs[..|pairs| - 1]);
    }
  }
}
