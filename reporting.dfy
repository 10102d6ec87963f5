/**
  report.go: turning a page record into a row of text cells. The header is
  the list of `PageStats` field names in declaration order; `structToMap`
  renders every field (integers in base 10, strings as they are) under its
  name; `mapValues` projects such a map onto a list of names. The table and
  CSV reporters keep the header and the rows they have been given; how the
  rows are drawn on the terminal is not modelled.
*/
module Reporting {
  import opened GoStrings
  import opened Stats

  /** The names of `PageStats`'s fields, in declaration order (with the source's spelling "Indexibility"). */
  const FieldNames: seq<string> := [
    "Url", "Domain", "StatusCode", "Status", "Indexibility", "ContentType",
    "Title", "TitleLength", "MetaDescription", "MetaDescriptionLength",
    "MetaKeywords", "MetaKeywordsCount", "Size", "WordCount", "CrawlDepth",
    "Inlinks", "UniqueInlinks", "Outlinks", "UniqueOutlinks",
    "ResponseTimeMillis", "Emails"]

  /** No two fields share a name, so a map keyed by name loses nothing. */
  lemma FieldNamesDistinct()
    ensures |FieldNames| == 21
    ensures NoDuplicates(FieldNames)
  {
  }

  // ------------------------------------------------------------ StatHeaders

  /** `StatHeaders`: the field names, appended one by one in declaration order. */
  method StatHeaders() returns (header: seq<string>)
    ensures header == FieldNames
  {
    header := [];
    for i := 0 to |FieldNames|
      invariant header == FieldNames[..i]
    {
      header := header + [FieldNames[i]];
    }
  }

  // ------------------------------------------------------------ structToMap

  /** A field's value as reflection sees it: an `int` or a `string`. */
  datatype FieldValue = IntField(n: int) | StringField(s: string)

  /**
    The cell `structToMap` writes for a field: `strconv.FormatInt(v, 10)` for
    an integer, which reads back to the same number, and the string itself
    for a string.
  */
  function Render(v: FieldValue): (cell: string)
    ensures v.StringField? ==> cell == v.s
    ensures v.IntField? ==> IsDecimal(cell) && DecimalValue(cell) == v.n
    ensures v.IntField? && MinInt <= v.n <= MaxInt ==> AtoiAccepts(cell)
    ensures v.IntField? ==> CanonicalDecimal(cell)
  {
    match v
    case IntField(n) => FormatIntRoundTrip(n); FormatInt(n)
    case StringField(s) => s
  }

  /** An integer cell is the one canonical numeral of its value: no `+`, no leading zero, no "-0". */
  lemma IntCellDetermined(n: int, text: string)
    requires CanonicalDecimal(text) && IsDecimal(text) && DecimalValue(text) == n
    ensures Render(IntField(n)) == text
  {
    CanonicalUnique(Render(IntField(n)), text);
  }

  /** The record's fields in declaration order, as `reflect.ValueOf(ps).Elem().Field(i)` visits them. */
  function Fields(ps: PageStats): (values: seq<FieldValue>)
    reads ps
    ensures |values| == |FieldNames|
  {
    [StringField(ps.Url), StringField(ps.Domain), IntField(ps.StatusCode),
     StringField(ps.Status), StringField(ps.Indexibility), StringField(ps.ContentType),
     StringField(ps.Title), IntField(ps.TitleLength), StringField(ps.MetaDescription),
     IntField(ps.MetaDescriptionLength), StringField(ps.MetaKeywords),
     IntField(ps.MetaKeywordsCount), IntField(ps.Size), IntField(ps.WordCount),
     IntField(ps.CrawlDepth), IntField(ps.Inlinks), IntField(ps.UniqueInlinks),
     IntField(ps.Outlinks), IntField(ps.UniqueOutlinks), IntField(ps.ResponseTimeMillis),
     StringField(ps.Emails)]
  }

  /** The cells of a row, one per field value, in the same order. */
  function Cells(values: seq<FieldValue>): (row: seq<string>)
    ensures |row| == |values|
    ensures forall i :: 0 <= i < |values| ==> row[i] == Render(values[i])
  {
    seq(|values|, i requires 0 <= i < |values| => Render(values[i]))
  }

  /**
    `structToMap`: one entry per field name, holding that field rendered;
    integer fields in base 10, string fields verbatim.
  */
  method StructToMap(ps: PageStats) returns (values: map<string, string>)
    ensures values.Keys == set k | k in FieldNames
    ensures forall i :: 0 <= i < |FieldNames| ==> values[FieldNames[i]] == Render(Fields(ps)[i])
  {
    FieldNamesDistinct();
    values := RenderUnder(FieldNames, Fields(ps));
  }

  /**
    The loop of `structToMap`: the i-th value rendered under the i-th name.
    With distinct names no entry overwrites another.
  */
  method RenderUnder(names: seq<string>, fields: seq<FieldValue>) returns (values: map<string, string>)
    requires |names| == |fields| && NoDuplicates(names)
    ensures values.Keys == set k | k in names
    ensures forall i :: 0 <= i < |names| ==> values[names[i]] == Render(fields[i])
  {
    values := map[];
    for i := 0 to |fields|
      invariant values.Keys == set k | k in names[..i]
      invariant forall j :: 0 <= j < i ==> values[names[j]] == Render(fields[j])
    {
      values := values[names[i] := Render(fields[i])];
    }
    assert names[..|fields|] == names;
  }

  // -------------------------------------------------------------- mapValues

  /** The values of the names in `fields` that are keys of `m`, in the order of `fields`. */
  function Project(m: map<string, string>, fields: seq<string>): (row: seq<string>)
    ensures |row| <= |fields|
  {
    if fields == [] then []
    else
      var k := fields[|fields| - 1];
      Project(m, fields[..|fields| - 1]) + (if k in m then [m[k]] else [])
  }

  /** `mapValues`: walk the names, appending the value of each one the map holds. */
  method MapValues(m: map<string, string>, fields: seq<string>) returns (row: seq<string>)
    ensures row == Project(m, fields)
  {
    row := [];
    for i := 0 to |fields|
      invariant row == Project(m, fields[..i])
    {
      assert fields[..i + 1][..i] == fields[..i];
      var k := fields[i];
      if k in m {
        row := row + [m[k]];
      }
    }
    assert fields[..|fields|] == fields;
  }

  /** The projection keeps the order of the names: projecting a concatenation concatenates. */
  lemma {:induction false} ProjectAppend(m: map<string, string>, a: seq<string>, b: seq<string>)
    ensures Project(m, a + b) == Project(m, a) + Project(m, b)
  {
    if b == [] {
      assert a + b == a;
    } else {
      var b' := b[..|b| - 1];
      ProjectAppend(m, a, b');
      assert (a + b)[..|a + b| - 1] == a + b';
    }
  }

  /** A name the map does not hold contributes no cell, wherever it stands. */
  lemma ProjectSkipsAbsent(m: map<string, string>, a: seq<string>, k: string, b: seq<string>)
    requires k !in m
    ensures Project(m, a + [k] + b) == Project(m, a + b)
  {
    ProjectAppend(m, a + [k], b);
    ProjectAppend(m, a, [k]);
    ProjectAppend(m, a, b);
    assert Project(m, [k]) == [] by {
      assert [k][..0] == [];
    }
  }

  /** The indices of the names the map holds. */
  function Present(m: map<string, string>, fields: seq<string>): set<int>
  {
    set i | 0 <= i < |fields| && fields[i] in m
  }

  /** The row has one cell per name that is a key of the map. */
  lemma {:induction false} ProjectLength(m: map<string, string>, fields: seq<string>)
    ensures |Project(m, fields)| == |Present(m, fields)|
  {
    if fields != [] {
      var n := |fields| - 1;
      var front := fields[..n];
      ProjectLength(m, front);
      if fields[n] in m {
        assert Present(m, fields) == Present(m, front) + {n};
      } else {
        assert Present(m, fields) == Present(m, front);
      }
    }
  }

  /** When every name is a key, the row has one cell per name: the value stored under it. */
  lemma {:induction false} ProjectAllPresent(m: map<string, string>, fields: seq<string>)
    requires forall i :: 0 <= i < |fields| ==> fields[i] in m
    ensures |Project(m, fields)| == |fields|
    ensures forall i :: 0 <= i < |fields| ==> Project(m, fields)[i] == m[fields[i]]
  {
    if fields != [] {
      ProjectAllPresent(m, fields[..|fields| - 1]);
    }
  }

  /**
    A map with the shape `structToMap` gives, projected onto the field names,
    is the row of rendered fields: 21 cells aligned with the header.
  */
  lemma RowOfRecord(m: map<string, string>, values: seq<FieldValue>)
    requires |values| == |FieldNames|
    requires m.Keys == set k | k in FieldNames
    requires forall i :: 0 <= i < |FieldNames| ==> m[FieldNames[i]] == Render(values[i])
    ensures Project(m, FieldNames) == Cells(values)
    ensures |Project(m, FieldNames)| == 21
  {
    FieldNamesDistinct();
    ProjectAllPresent(m, FieldNames);
  }

  // -------------------------------------------------------------- reporters

  /** How a table reporter draws its rows: tablewriter's boxed default, or the tab-padded TSV styling. */
  datatype TableStyle = Boxed | TabPadded

  /** `TableReporter`: a header set from `StatHeaders` and the rows appended so far. */
  class TableReporter {
    var fields: seq<string>
    var header: seq<string>
    var rows: seq<seq<string>>
    var style: TableStyle

    /** The header is the field list, and every row has one cell per header column. */
    ghost predicate Valid()
      reads this
    {
      && fields == FieldNames
      && header == fields
      && forall i :: 0 <= i < |rows| ==> |rows[i]| == |header|
    }

    /** `NewTableReporter`: the fields from `StatHeaders`, set as the table's header. */
    constructor ()
      ensures Valid() && rows == [] && style == Boxed
    {
      var names := StatHeaders();
      fields := names;
      header := names;
      rows := [];
      style := Boxed;
    }

    /** The styling `NewTSVReporter` applies; the header and rows stay as they are. */
    method UseTabs()
      modifies this`style
      ensures style == TabPadded
    {
      style := TabPadded;
    }

    /** `Append`: the record's row, projected through `structToMap` and `mapValues`. */
    method Append(ps: PageStats)
      requires Valid()
      modifies this`rows
      ensures Valid()
      ensures rows == old(rows) + [Cells(Fields(ps))]
    {
      var m := StructToMap(ps);
      var row := MapValues(m, fields);
      RowOfRecord(m, Fields(ps));
      rows := rows + [row];
    }
  }

  /** `NewTSVReporter`: a table reporter restyled to pad with tabs and draw no borders. */
  method NewTSVReporter() returns (tr: TableReporter)
    ensures fresh(tr) && tr.Valid() && tr.rows == [] && tr.style == TabPadded
  {
    tr := new TableReporter();
    tr.UseTabs();
  }

  /** `CSVReporter`: the records written so far, the header first. */
  class CsvReporter {
    var fields: seq<string>
    var records: seq<seq<string>>

    /** The first record is the header, and every record has one cell per field. */
    ghost predicate Valid()
      reads this
    {
      && fields == FieldNames
      && |records| >= 1
      && records[0] == fields
      && forall i :: 0 <= i < |records| ==> |records[i]| == |fields|
    }

    /** `NewCSVReporter`: the fields from `StatHeaders`, written as the first record. */
    constructor ()
      ensures Valid() && records == [FieldNames]
    {
      var names := StatHeaders();
      fields := names;
      records := [names];
    }

    /** `Append`: the record's row, written after those before it. */
    method Append(ps: PageStats)
      requires Valid()
      modifies this`records
      ensures Valid()
      ensures records == old(records) + [Cells(Fields(ps))]
    {
      var m := StructToMap(ps);
      var row := MapValues(m, fields);
      RowOfRecord(m, Fields(ps));
      records := records + [row];
    }
  }

  /** The `Reporter` interface, over the two implementations. */
  datatype Reporter = TableOutput(table: TableReporter) | CsvOutput(csv: CsvReporter)
}
