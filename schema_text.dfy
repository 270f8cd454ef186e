/** The schema description handed to the language model (db_connector.py:19-45). The
    two catalogue queries are not run: their answers arrive as a catalogue, one
    `(table name, column names)` pair per row of the table query, in the order the
    database returned them. */
module SchemaText {
  import opened Strings

  type Catalog = seq<(string, seq<string>)>

  const HEADER := "Tables:\n"
  const SEPARATOR := ", "

  /** An insertion-ordered Python dict: the keys in insertion order, and their values. */
  datatype SchemaInfo = SchemaInfo(keys: seq<string>, values: map<string, seq<string>>)

  /** Every key listed has a value. */
  predicate KeysMapped(d: SchemaInfo) {
    forall j :: 0 <= j < |d.keys| ==> d.keys[j] in d.values
  }

  /** The keys listed are exactly the keys mapped, each listed once. */
  ghost predicate WellFormed(d: SchemaInfo) {
    && KeysMapped(d)
    && (forall name :: name in d.values ==> name in d.keys)
    && (forall a, b :: 0 <= a < b < |d.keys| ==> d.keys[a] != d.keys[b])
  }

  /** `d[name] = cols`: a new key goes to the end; an existing key keeps its place and
      takes the new value. */
  function Assign(d: SchemaInfo, name: string, cols: seq<string>): (r: SchemaInfo)
    requires WellFormed(d)
    ensures WellFormed(r)
    ensures name in r.values && r.values[name] == cols
    ensures forall n :: n in d.values && n != name ==> n in r.values && r.values[n] == d.values[n]
    ensures r.keys == if name in d.values then d.keys else d.keys + [name]
  {
    if name in d.values then SchemaInfo(d.keys, d.values[name := cols])
    else SchemaInfo(d.keys + [name], d.values[name := cols])
  }

  /** `schema_info` after the loop over the tables (db_connector.py:24-36). */
  function Collect(catalog: Catalog): (d: SchemaInfo)
    ensures WellFormed(d)
  {
    if catalog == [] then SchemaInfo([], map[])
    else
      var n := |catalog| - 1;
      Assign(Collect(catalog[..n]), catalog[n].0, catalog[n].1)
  }

  /** The index of the first row at or after `from` naming `name`, or |catalog| if
      none does. */
  function IndexFrom(catalog: Catalog, name: string, from: nat): (r: nat)
    requires from <= |catalog|
    ensures from <= r <= |catalog|
    ensures r < |catalog| ==> catalog[r].0 == name
    ensures forall k :: from <= k < r ==> catalog[k].0 != name
    decreases |catalog| - from
  {
    if from == |catalog| then from
    else if catalog[from].0 == name then from
    else IndexFrom(catalog, name, from + 1)
  }

  function FirstIndex(catalog: Catalog, name: string): nat {
    IndexFrom(catalog, name, 0)
  }

  /** Row `k` is the last row naming its table. */
  predicate LastOccurrence(catalog: Catalog, k: nat)
    requires k < |catalog|
  {
    forall j :: k < j < |catalog| ==> catalog[j].0 != catalog[k].0
  }

  lemma SplitLast<T>(s: seq<T>)
    requires s != []
    ensures s[..|s| - 1] + [s[|s| - 1]] == s
  {
  }

  /** Appending a row does not move the first row of a table already named. */
  lemma FirstIndexExtend(catalog: Catalog, row: (string, seq<string>), name: string)
    requires FirstIndex(catalog, name) < |catalog|
    ensures FirstIndex(catalog + [row], name) == FirstIndex(catalog, name)
  {
    var r := FirstIndex(catalog, name);
    assert (catalog + [row])[r] == catalog[r];
  }

  /** Every table named in the catalogue is a key, and every key is a table named in
      the catalogue. */
  lemma {:induction false} CollectKeys(catalog: Catalog)
    ensures forall k :: 0 <= k < |catalog| ==> catalog[k].0 in Collect(catalog).values
    ensures forall name :: name in Collect(catalog).values ==> FirstIndex(catalog, name) < |catalog|
  {
    if catalog != [] {
      var n := |catalog| - 1;
      var front := catalog[..n];
      CollectKeys(front);
      assert catalog == front + [catalog[n]];
      forall name | name in Collect(catalog).values
        ensures FirstIndex(catalog, name) < |catalog|
      {
        if name != catalog[n].0 {
          FirstIndexExtend(front, catalog[n], name);
        }
      }
      forall k | 0 <= k < |catalog| ensures catalog[k].0 in Collect(catalog).values {
        if k < n {
          assert catalog[k] == front[k];
        }
      }
    }
  }

  /** A table first named by the appended row has that row as its first. */
  lemma NewKeyIndex(front: Catalog, row: (string, seq<string>))
    requires forall k :: 0 <= k < |front| ==> front[k].0 != row.0
    ensures FirstIndex(front + [row], row.0) == |front|
  {
    var c := front + [row];
    forall k | 0 <= k < |front| ensures c[k].0 != row.0 {
      assert c[k] == front[k];
    }
    assert c[|front|] == row;
  }

  /** `keys` are listed in the order of their first rows in `catalog`. */
  predicate OrderedByFirstRow(catalog: Catalog, keys: seq<string>) {
    forall a, b :: 0 <= a < b < |keys| ==> FirstIndex(catalog, keys[a]) < FirstIndex(catalog, keys[b])
  }

  /** Every key is named by some row of `catalog`. */
  predicate AllNamed(catalog: Catalog, keys: seq<string>) {
    forall j :: 0 <= j < |keys| ==> FirstIndex(catalog, keys[j]) < |catalog|
  }

  /** One step of `CollectOrder`: keys ordered by first row stay so when a row is
      appended and its table, if new, is appended to the keys. */
  lemma OrderStep(front: Catalog, row: (string, seq<string>), added: bool, oldKeys: seq<string>, keys: seq<string>)
    requires AllNamed(front, oldKeys) && OrderedByFirstRow(front, oldKeys)
    requires keys == if added then oldKeys + [row.0] else oldKeys
    requires added ==> forall k :: 0 <= k < |front| ==> front[k].0 != row.0
    ensures OrderedByFirstRow(front + [row], keys)
  {
    var c := front + [row];
    forall j | 0 <= j < |oldKeys| ensures FirstIndex(c, oldKeys[j]) == FirstIndex(front, oldKeys[j]) {
      FirstIndexExtend(front, row, oldKeys[j]);
    }
    if added {
      NewKeyIndex(front, row);
    }
    forall a, b | 0 <= a < b < |keys| ensures FirstIndex(c, keys[a]) < FirstIndex(c, keys[b]) {
      assert keys[a] == oldKeys[a];
      if b < |oldKeys| {
        assert keys[b] == oldKeys[b];
      } else {
        assert keys[b] == row.0;
      }
    }
  }

  /** The keys come in the order in which their tables were first listed. */
  lemma {:induction false} CollectOrder(catalog: Catalog)
    ensures OrderedByFirstRow(catalog, Collect(catalog).keys)
  {
    if catalog != [] {
      var n := |catalog| - 1;
      var front, row := catalog[..n], catalog[n];
      CollectOrder(front);
      CollectKeys(front);
      var d := Collect(front);
      assert AllNamed(front, d.keys) by {
        assert forall j :: 0 <= j < |d.keys| ==> d.keys[j] in d.values;
      }
      var added := row.0 !in d.values;
      assert added ==> forall k :: 0 <= k < |front| ==> front[k].0 != row.0;
      OrderStep(front, row, added, d.keys, Collect(catalog).keys);
      SplitLast(catalog);
    }
  }

  /** Every table maps to the columns of the last row naming it. */
  predicate LastRowsKept(catalog: Catalog, values: map<string, seq<string>>) {
    forall k :: 0 <= k < |catalog| && LastOccurrence(catalog, k) ==>
      catalog[k].0 in values && values[catalog[k].0] == catalog[k].1
  }

  /** One step of `CollectLastWins`: the appended row's columns replace its table's,
      and no other table changes. */
  lemma LastWinsStep(front: Catalog, row: (string, seq<string>), before: map<string, seq<string>>,
                     after: map<string, seq<string>>)
    requires LastRowsKept(front, before)
    requires row.0 in after && after[row.0] == row.1
    requires forall name :: name in before && name != row.0 ==> name in after && after[name] == before[name]
    ensures LastRowsKept(front + [row], after)
  {
    var c := front + [row];
    forall k | 0 <= k < |c| && LastOccurrence(c, k)
      ensures c[k].0 in after && after[c[k].0] == c[k].1
    {
      if k < |front| {
        assert c[k] == front[k];
        assert c[|front|] == row;
        assert LastOccurrence(front, k) by {
          forall j | k < j < |front| ensures front[j].0 != front[k].0 {
            assert front[j] == c[j];
          }
        }
      }
    }
  }

  /** A table listed more than once keeps the columns of its last row. */
  lemma {:induction false} CollectLastWins(catalog: Catalog)
    ensures LastRowsKept(catalog, Collect(catalog).values)
  {
    if catalog != [] {
      var n := |catalog| - 1;
      var front, row := catalog[..n], catalog[n];
      CollectLastWins(front);
      var d := Collect(front);
      assert Collect(catalog) == Assign(d, row.0, row.1);
      LastWinsStep(front, row, d.values, Collect(catalog).values);
      SplitLast(catalog);
    }
  }

  /** The total length of the names in `cols`. */
  function TotalLength(cols: seq<string>): nat {
    if cols == [] then 0 else |cols[0]| + TotalLength(cols[1..])
  }

  /** `", ".join(cols)`. */
  function Join(cols: seq<string>): (r: string)
    ensures cols == [] ==> r == []
    ensures cols != [] ==> |r| == TotalLength(cols) + |SEPARATOR| * (|cols| - 1)
    ensures cols != [] ==> |cols[0]| <= |r| && r[..|cols[0]|] == cols[0]
  {
    if |cols| == 0 then ""
    else if |cols| == 1 then cols[0]
    else cols[0] + SEPARATOR + Join(cols[1..])
  }

  /** The pieces of `s` between the ", " separators. */
  function SplitColumns(s: string): (r: seq<string>)
    ensures |r| >= 1
    decreases |s|
  {
    match Find(SEPARATOR, s, 0)
    case None => [s]
    case Some(i) => [s[..i]] + SplitColumns(s[i + 2..])
  }

  lemma NoCommaNoSeparator(x: string)
    requires ',' !in x
    ensures Find(SEPARATOR, x, 0).None?
  {
    forall i | 0 <= i ensures !OccursAt(SEPARATOR, x, i) {
      assert i + 2 <= |x| ==> x[i..i + 2][0] == x[i];
    }
  }

  lemma FirstSeparator(x: string, y: string)
    requires ',' !in x
    ensures Find(SEPARATOR, x + SEPARATOR + y, 0) == Some(|x|)
  {
    var s := x + SEPARATOR + y;
    assert s[|x|..|x| + 2] == SEPARATOR;
    assert OccursAt(SEPARATOR, s, |x|);
    var i := Find(SEPARATOR, s, 0).value;
    assert s[i] == s[i..i + 2][0];
  }

  /** Column names without commas can be read back, in order, from the joined text. */
  lemma {:induction false} JoinRoundTrip(cols: seq<string>)
    requires cols != []
    requires forall k :: 0 <= k < |cols| ==> ',' !in cols[k]
    ensures SplitColumns(Join(cols)) == cols
  {
    if |cols| == 1 {
      NoCommaNoSeparator(cols[0]);
    } else {
      var x, y := cols[0], Join(cols[1..]);
      FirstSeparator(x, y);
      var s := x + SEPARATOR + y;
      assert s[..|x|] == x;
      assert s[|x| + 2..] == y;
      JoinRoundTrip(cols[1..]);
    }
  }

  /** One line of the description: `- {table} ({columns})`. */
  function Line(table: string, cols: seq<string>): (r: string)
    ensures |r| == |table| + |Join(cols)| + 6
  {
    "- " + table + " (" + Join(cols) + ")\n"
  }

  /** A line starts with "- " and the table name and ends with ")" and a newline; with
      newline-free names, that newline is its only one. */
  lemma LineShape(table: string, cols: seq<string>)
    ensures var r := Line(table, cols);
      && r[..2] == "- " && r[2..2 + |table|] == table && r[|r| - 2..] == ")\n"
      && ('\n' !in table && (forall k :: 0 <= k < |cols| ==> '\n' !in cols[k]) ==> '\n' !in r[..|r| - 1])
  {
    var r := Line(table, cols);
    assert r[2..2 + |table|] == table;
    if '\n' !in table && (forall k :: 0 <= k < |cols| ==> '\n' !in cols[k]) {
      NoNewlineInJoin(cols);
      assert r[..|r| - 1] == "- " + table + " (" + Join(cols) + ")";
    }
  }

  function Lines(keys: seq<string>, values: map<string, seq<string>>): string
    requires forall j :: 0 <= j < |keys| ==> keys[j] in values
  {
    if keys == [] then ""
    else
      var n := |keys| - 1;
      Lines(keys[..n], values) + Line(keys[n], values[keys[n]])
  }

  /** The text `get_db_schema` returns for a dictionary. */
  function Render(d: SchemaInfo): (r: string)
    requires KeysMapped(d)
    ensures |r| >= |HEADER| && r[..|HEADER|] == HEADER
    ensures d.keys == [] ==> r == HEADER
  {
    HEADER + Lines(d.keys, d.values)
  }

  function CountChar(s: string, c: char): nat {
    if s == [] then 0 else (if s[0] == c then 1 else 0) + CountChar(s[1..], c)
  }

  lemma {:induction false} CountAppend(a: string, b: string, c: char)
    ensures CountChar(a + b, c) == CountChar(a, c) + CountChar(b, c)
  {
    if a == [] {
      assert a + b == b;
    } else {
      assert (a + b)[1..] == a[1..] + b;
      CountAppend(a[1..], b, c);
    }
  }

  lemma {:induction false} NoNewlineInJoin(cols: seq<string>)
    requires forall k :: 0 <= k < |cols| ==> '\n' !in cols[k]
    ensures '\n' !in Join(cols)
  {
    if |cols| > 1 {
      NoNewlineInJoin(cols[1..]);
    }
  }

  lemma {:induction false} CountAbsent(s: string, c: char)
    requires c !in s
    ensures CountChar(s, c) == 0
  {
    if s != [] {
      CountAbsent(s[1..], c);
    }
  }

  lemma HeaderLine()
    ensures CountChar(HEADER, '\n') == 1
  {
    CountAppend("Tables:", "\n", '\n');
    CountAbsent("Tables:", '\n');
  }

  /** One line per table: the header's newline plus one per key, as long as no name
      holds a newline. */
  lemma {:induction false} LinePerTable(d: SchemaInfo)
    requires KeysMapped(d)
    requires forall j :: 0 <= j < |d.keys| ==> '\n' !in d.keys[j]
    requires forall name :: name in d.values ==> forall k :: 0 <= k < |d.values[name]| ==> '\n' !in d.values[name][k]
    ensures CountChar(Render(d), '\n') == 1 + |d.keys|
  {
    LinesCount(d.keys, d.values);
    HeaderLine();
    CountAppend(HEADER, Lines(d.keys, d.values), '\n');
  }

  lemma {:induction false} LinesCount(keys: seq<string>, values: map<string, seq<string>>)
    requires forall j :: 0 <= j < |keys| ==> keys[j] in values
    requires forall j :: 0 <= j < |keys| ==> '\n' !in keys[j]
    requires forall name :: name in values ==> forall k :: 0 <= k < |values[name]| ==> '\n' !in values[name][k]
    ensures CountChar(Lines(keys, values), '\n') == |keys|
  {
    if keys != [] {
      var n := |keys| - 1;
      LinesCount(keys[..n], values);
      var name := keys[n];
      NoNewlineInJoin(values[name]);
      CountAbsent(name, '\n');
      CountAbsent(Join(values[name]), '\n');
      CountAppend("- ", name, '\n');
      CountAppend("- " + name, " (", '\n');
      CountAppend("- " + name + " (", Join(values[name]), '\n');
      CountAppend("- " + name + " (" + Join(values[name]), ")\n", '\n');
      CountAppend(Lines(keys[..n], values), Line(name, values[name]), '\n');
    }
  }

  lemma LinesSnoc(keys: seq<string>, values: map<string, seq<string>>, k: nat)
    requires k < |keys|
    requires forall j :: 0 <= j < |keys| ==> keys[j] in values
    ensures Lines(keys[..k + 1], values) == Lines(keys[..k], values) + Line(keys[k], values[keys[k]])
  {
    assert keys[..k + 1][..k] == keys[..k];
  }

  /** A catalogue of one table renders as the header and that table's line. */
  lemma SingleTable(name: string, cols: seq<string>)
    ensures Render(Collect([(name, cols)])) == HEADER + Line(name, cols)
  {
    var c: Catalog := [(name, cols)];
    var m := map[name := cols];
    assert c[..0] == [];
    assert Collect(c) == SchemaInfo([name], m);
    assert [name][..0] == [];
    assert Lines([name], m) == Line(name, cols);
  }

  /** A table without columns is still listed, with empty parentheses. */
  lemma TableWithoutColumns(name: string)
    ensures Line(name, []) == "- " + name + " ()\n"
  {
    var prefix := "- " + name;
    assert Line(name, []) == prefix + " (" + "" + ")\n";
    assert " (" + "" + ")\n" == " ()\n";
  }

  /** The formatting half of `get_db_schema` (db_connector.py:40-45). */
  method Format(schemaInfo: SchemaInfo) returns (formatted: string)
    requires KeysMapped(schemaInfo)
    ensures formatted == Render(schemaInfo)
  {
    var keys, values := schemaInfo.keys, schemaInfo.values;
    formatted := HEADER;
    for k := 0 to |keys|
      invariant formatted == HEADER + Lines(keys[..k], values)
    {
      var line := Line(keys[k], values[keys[k]]);
      LinesSnoc(keys, values, k);
      formatted := formatted + line;
    }
    assert keys[..|keys|] == keys;
  }

  /** `get_db_schema` once the catalogue has been read (db_connector.py:24-45). */
  method GetDbSchema(catalog: Catalog) returns (formatted: string)
    ensures formatted == Render(Collect(catalog))
  {
    var keys: seq<string> := [];
    var values: map<string, seq<string>> := map[];
    for k := 0 to |catalog|
      invariant SchemaInfo(keys, values) == Collect(catalog[..k])
    {
      assert catalog[..k + 1][..k] == catalog[..k];
      var (table, columns) := catalog[k];
      if table !in values {
        keys := keys + [table];
      }
      values := values[table := columns];
    }
    assert catalog[..|catalog|] == catalog;
    formatted := Format(SchemaInfo(keys, values));
  }
}
