/**
 The CSV export of the product list (`exportToCsv` in
 src/components/ProductList.jsx). The text is a header line followed by
 one line per visible row, in table order. Fields are joined with "," and
 lines with "\n". There is no trailing newline, and no field is quoted or
 escaped. Nothing is exported when the table is empty. The download
 itself (Blob, object URL, file name) is a browser effect and is not
 modelled; only the text is.

 `ParseCsv` reads such a text back. It is the partner that shows what the
 export preserves: every row comes back as long as no name or category
 contains a comma or a line break. It also shows what the missing
 escaping costs when one does.
 */
module Csv {
  import opened Products
  import opened Optional
  import opened Text

  const Header: string := "Name,Category,Price"

  const FieldSeparator: char := ','
  const LineSeparator: char := '\n'

  /** `[p.name, p.category, p.price].join(",")`. */
  function Row(p: Product): string {
    Join([p.name, p.category, IntToString(p.price)], [FieldSeparator])
  }

  lemma RowShape(p: Product)
    ensures Row(p) == p.name + [FieldSeparator] + (p.category + [FieldSeparator] + IntToString(p.price))
  {
    var sep := [FieldSeparator];
    var fields := [p.name, p.category, IntToString(p.price)];
    assert fields[1..] == [p.category, IntToString(p.price)];
    assert fields[1..][1..] == [IntToString(p.price)];
    assert Join(fields[1..][1..], sep) == IntToString(p.price);
    assert Join(fields[1..], sep) == p.category + sep + IntToString(p.price);
    assert Join(fields, sep) == p.name + sep + Join(fields[1..], sep);
  }

  function Rows(products: seq<Product>): (r: seq<string>)
    ensures |r| == |products|
    ensures forall i :: 0 <= i < |products| ==> r[i] == Row(products[i])
  {
    seq(|products|, i requires 0 <= i < |products| => Row(products[i]))
  }

  /** The exported text, or `None` when there is nothing to export (the
      early return on an empty list). */
  function ExportCsv(rows: seq<Product>): (r: Option<string>)
    ensures r.None? <==> |rows| == 0
    ensures r.Some? ==> StartsWith(r.value, Header)
  {
    if |rows| == 0 then None
    else
      var lines := [Header] + Rows(rows);
      assert Join(lines, [LineSeparator]) == Header + [LineSeparator] + Join(lines[1..], [LineSeparator]);
      Some(Join(lines, [LineSeparator]))
  }

  /** The three exported columns of a product. */
  datatype Fields = Fields(name: string, category: string, price: int)

  function FieldsOf(p: Product): Fields {
    Fields(p.name, p.category, p.price)
  }

  function FieldsColumn(rows: seq<Product>): (r: seq<Fields>)
    ensures |r| == |rows|
    ensures forall i :: 0 <= i < |rows| ==> r[i] == FieldsOf(rows[i])
  {
    seq(|rows|, i requires 0 <= i < |rows| => FieldsOf(rows[i]))
  }

  /** Reads one line back: exactly three comma-separated fields. */
  function ParseRow(line: string): Option<Fields> {
    var f := Split(line, FieldSeparator);
    if |f| != 3 then None else Some(Fields(f[0], f[1], ParseInt(f[2])))
  }

  function ParseRows(lines: seq<string>): (r: Option<seq<Fields>>)
    ensures r.Some? ==> |r.value| == |lines|
  {
    if |lines| == 0 then Some([])
    else
      match ParseRow(lines[0])
      case None => None
      case Some(f) =>
        match ParseRows(lines[1..])
        case None => None
        case Some(rest) => Some([f] + rest)
  }

  /** Reads an exported text back: the header line, then one row per line. */
  function ParseCsv(text: string): Option<seq<Fields>> {
    var lines := Split(text, LineSeparator);
    if lines[0] != Header then None else ParseRows(lines[1..])
  }

  /** A product whose name and category hold neither separator. */
  predicate Plain(p: Product) {
    && FieldSeparator !in p.name && LineSeparator !in p.name
    && FieldSeparator !in p.category && LineSeparator !in p.category
  }

  lemma IntToStringHasNoSeparator(n: int)
    ensures FieldSeparator !in IntToString(n) && LineSeparator !in IntToString(n)
  {
    var s := IntToString(n);
    forall i | 0 <= i < |s| ensures s[i] != FieldSeparator && s[i] != LineSeparator {}
  }

  /** A line break in a field makes its row span two lines; otherwise each
      row is one line. */
  lemma RowHasNoLineBreak(p: Product)
    requires LineSeparator !in p.name && LineSeparator !in p.category
    ensures LineSeparator !in Row(p)
  {
    IntToStringHasNoSeparator(p.price);
    RowShape(p);
  }

  /** The text is the header line and then exactly one line per row, in
      order, when no name or category holds a line break. */
  lemma ExportLines(rows: seq<Product>)
    requires |rows| > 0
    requires forall i :: 0 <= i < |rows| ==> LineSeparator !in rows[i].name && LineSeparator !in rows[i].category
    ensures Split(ExportCsv(rows).value, LineSeparator) == [Header] + Rows(rows)
  {
    var lines := [Header] + Rows(rows);
    forall i | 0 <= i < |lines| ensures LineSeparator !in lines[i] {
      if i > 0 {
        RowHasNoLineBreak(rows[i - 1]);
      }
    }
    SplitJoin(lines, LineSeparator);
  }

  /** A plain product's line reads back as its three fields. */
  lemma ParseRowOfRow(p: Product)
    requires Plain(p)
    ensures ParseRow(Row(p)) == Some(FieldsOf(p))
  {
    var price := IntToString(p.price);
    IntToStringHasNoSeparator(p.price);
    ParseIntToString(p.price);
    RowShape(p);
    SplitAtSeparator(p.name, FieldSeparator, p.category + [FieldSeparator] + price);
    SplitAtSeparator(p.category, FieldSeparator, price);
    SplitNoSeparator(price, FieldSeparator);
  }

  lemma {:induction false} ParseRowsOfRows(rows: seq<Product>)
    requires forall i :: 0 <= i < |rows| ==> Plain(rows[i])
    ensures ParseRows(Rows(rows)) == Some(FieldsColumn(rows))
  {
    if |rows| > 0 {
      ParseRowOfRow(rows[0]);
      ParseRowsOfRows(rows[1..]);
      var lines := Rows(rows);
      assert lines[0] == Row(rows[0]);
      assert lines[1..] == Rows(rows[1..]);
      assert FieldsColumn(rows) == [FieldsOf(rows[0])] + FieldsColumn(rows[1..]);
    }
  }

  /** Export then parse gives back the name, category and price of every
      row, in order, as long as no name or category holds a separator. */
  lemma ExportRoundTrip(rows: seq<Product>)
    requires |rows| > 0
    requires forall i :: 0 <= i < |rows| ==> Plain(rows[i])
    ensures ParseCsv(ExportCsv(rows).value) == Some(FieldsColumn(rows))
  {
    ExportLines(rows);
    ParseRowsOfRows(rows);
    assert ([Header] + Rows(rows))[1..] == Rows(rows);
  }

  /** Splitting yields one more piece than there are separators. */
  lemma {:induction false} SplitCount(s: string, c: char)
    ensures |Split(s, c)| == multiset(s)[c] + 1
  {
    if |s| > 0 {
      SplitCount(s[1..], c);
      assert s == [s[0]] + s[1..];
    }
  }

  /** Because fields are not quoted, a comma in a name adds a column: the
      row no longer reads back as three fields. */
  lemma CommaInNameBreaksRow(p: Product)
    requires FieldSeparator in p.name
    ensures |Split(Row(p), FieldSeparator)| > 3
    ensures ParseRow(Row(p)).None?
  {
    RowShape(p);
    SplitCount(Row(p), FieldSeparator);
    assert multiset(p.name)[FieldSeparator] >= 1;
  }
}
