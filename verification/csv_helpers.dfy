/**
 * The audit spreadsheet: `generateCsvContent` lays out eleven rows (title,
 * description and item-specifics blocks separated by blank rows) and joins them
 * into CSV text, quoting every field that holds a quote, a comma or a line feed.
 *
 * The writer reads the listing record loosely (`parsedData as any`): `itemId`,
 * `description` and the `name`/`Name`/`value`/`Value` fields of each specific are
 * looked up by name whether or not the record has them. `SheetSource` is the
 * record as the writer sees it; `SheetSourceOf` is what a `ParsedListingData`
 * looks like through those lookups.
 */
module CsvHelpers {
  import opened Text
  import opened Types

  // ---------------------------------------------------------------------------
  // Field quoting

  /** A field is quoted when it contains a double quote, a comma or a line feed. */
  predicate NeedsQuotes(s: string) {
    '"' in s || ',' in s || '\n' in s
  }

  /** `s.replace(/"/g, '""')`. */
  function DoubleQuotes(s: string): (r: string)
    ensures |r| >= |s|
  {
    if s == [] then [] else (if s[0] == '"' then "\"\"" else [s[0]]) + DoubleQuotes(s[1..])
  }

  /** `escapeCsv`: a missing field is empty, a field needing quotes is wrapped with its quotes doubled. */
  function EscapeCsv(field: Option<string>): (r: string)
    ensures field.None? ==> r == ""
    ensures field.Some? && !NeedsQuotes(field.value) ==> r == field.value
    ensures field.Some? && NeedsQuotes(field.value) ==> |r| >= |field.value| + 2 && r[0] == '"' && r[|r| - 1] == '"'
  {
    match field
    case None => ""
    case Some(s) => if NeedsQuotes(s) then "\"" + DoubleQuotes(s) + "\"" else s
  }

  /** The inverse of `DoubleQuotes`: each pair of quotes becomes one. */
  function Undouble(s: string): string {
    if |s| >= 2 && s[0] == '"' && s[1] == '"' then "\"" + Undouble(s[2..])
    else if s == [] then []
    else [s[0]] + Undouble(s[1..])
  }

  /** Reading one field back: a quoted field loses its outer quotes and its doubled quotes. */
  function Unescape(f: string): string {
    if |f| >= 2 && f[0] == '"' && f[|f| - 1] == '"' then Undouble(f[1..|f| - 1]) else f
  }

  lemma {:induction false} UndoubleDoubleQuotes(s: string)
    ensures Undouble(DoubleQuotes(s)) == s
  {
    if s != [] {
      UndoubleDoubleQuotes(s[1..]);
      if s[0] == '"' {
        assert DoubleQuotes(s) == "\"\"" + DoubleQuotes(s[1..]);
        assert DoubleQuotes(s)[2..] == DoubleQuotes(s[1..]);
      } else {
        assert DoubleQuotes(s) == [s[0]] + DoubleQuotes(s[1..]);
        assert DoubleQuotes(s)[1..] == DoubleQuotes(s[1..]);
      }
    }
  }

  /** Removing the outer quotes and un-doubling recovers the original field. */
  lemma EscapeCsvRoundTrip(s: string)
    ensures Unescape(EscapeCsv(Some(s))) == s
  {
    if NeedsQuotes(s) {
      var e := EscapeCsv(Some(s));
      assert e[1..|e| - 1] == DoubleQuotes(s);
      UndoubleDoubleQuotes(s);
    }
  }

  // ---------------------------------------------------------------------------
  // Rows and the sheet text

  /** `row.map(escapeCsv)`. */
  function EscapeAll(cells: seq<string>): (r: seq<string>)
    ensures |r| == |cells|
  {
    if cells == [] then [] else [EscapeCsv(Some(cells[0]))] + EscapeAll(cells[1..])
  }

  /** `row.map(escapeCsv).join(',')`. */
  function EncodeRow(cells: seq<string>): string {
    Join(EscapeAll(cells), ",")
  }

  function EncodeRows(rows: seq<seq<string>>): (r: seq<string>)
    ensures |r| == |rows|
  {
    if rows == [] then [] else [EncodeRow(rows[0])] + EncodeRows(rows[1..])
  }

  /** `rows.map(row => row.map(escapeCsv).join(',')).join('\n')`. */
  function EncodeSheet(rows: seq<seq<string>>): string {
    Join(EncodeRows(rows), "\n")
  }

  // ---------------------------------------------------------------------------
  // A CSV reader, the partner of the writer

  /** An unquoted field: everything up to the next comma or line feed. */
  function ReadBare(s: string): (r: (string, string))
    ensures r.0 + r.1 == s
    ensures r.1 == [] || r.1[0] == ',' || r.1[0] == '\n'
  {
    if s == [] || s[0] == ',' || s[0] == '\n' then ([], s)
    else
      var (f, rest) := ReadBare(s[1..]);
      assert s == [s[0]] + s[1..];
      ([s[0]] + f, rest)
  }

  /** The rest of a quoted field after its opening quote: `""` stands for `"`, a lone `"` closes it. */
  function ReadQuoted(s: string): (r: Option<(string, string)>)
    ensures r.Some? ==> |r.value.1| < |s|
  {
    if s == [] then None
    else if s[0] == '"' then
      if |s| >= 2 && s[1] == '"' then
        match ReadQuoted(s[2..])
        case None => None
        case Some((f, rest)) => Some(("\"" + f, rest))
      else Some(([], s[1..]))
    else
      match ReadQuoted(s[1..])
      case None => None
      case Some((f, rest)) => Some(([s[0]] + f, rest))
  }

  function ReadField(s: string): (r: Option<(string, string)>)
    ensures r.Some? ==> |r.value.1| <= |s|
  {
    if s != [] && s[0] == '"' then ReadQuoted(s[1..]) else Some(ReadBare(s))
  }

  /** The comma-separated fields of one record, and what follows the record. */
  function ReadFields(s: string): (r: Option<(seq<string>, string)>)
    decreases |s|
    ensures r.Some? ==> |r.value.1| <= |s|
  {
    match ReadField(s)
    case None => None
    case Some((f, rest)) =>
      if rest != [] && rest[0] == ',' then
        match ReadFields(rest[1..])
        case None => None
        case Some((fs, after)) => Some(([f] + fs, after))
      else Some(([f], rest))
  }

  /** One record; an empty line is a record without fields. */
  function ReadRecord(s: string): (r: Option<(seq<string>, string)>)
    ensures r.Some? ==> |r.value.1| <= |s|
  {
    if s == [] || s[0] == '\n' then Some(([], s)) else ReadFields(s)
  }

  /** The records of a CSV text, one per line; `None` when the text is malformed. */
  function ParseCsv(s: string): Option<seq<seq<string>>>
    decreases |s|
  {
    match ReadRecord(s)
    case None => None
    case Some((record, rest)) =>
      if rest == [] then Some([record])
      else if rest[0] == '\n' then
        match ParseCsv(rest[1..])
        case None => None
        case Some(records) => Some([record] + records)
      else None
  }

  lemma {:induction false} ReadBareClean(c: string, tail: string)
    requires ',' !in c && '\n' !in c
    requires tail == [] || tail[0] == ',' || tail[0] == '\n'
    ensures ReadBare(c + tail) == (c, tail)
  {
    if c != [] {
      assert (c + tail)[0] == c[0] && c[0] in c;
      assert (c + tail)[1..] == c[1..] + tail;
      ReadBareClean(c[1..], tail);
      assert [c[0]] + c[1..] == c;
    } else {
      assert c + tail == tail;
    }
  }

  lemma {:induction false} ReadQuotedDoubled(c: string, tail: string)
    requires tail == [] || tail[0] != '"'
    ensures ReadQuoted(DoubleQuotes(c) + "\"" + tail) == Some((c, tail))
  {
    var s := DoubleQuotes(c) + "\"" + tail;
    if c == [] {
      assert s == "\"" + tail;
      assert s[1..] == tail;
    } else {
      ReadQuotedDoubled(c[1..], tail);
      var t := DoubleQuotes(c[1..]) + "\"" + tail;
      if c[0] == '"' {
        assert s == "\"\"" + t;
        assert s[2..] == t;
        assert "\"" + c[1..] == c;
      } else {
        assert s == [c[0]] + t;
        assert s[1..] == t;
        assert [c[0]] + c[1..] == c;
      }
    }
  }

  /** An escaped field followed by a delimiter reads back as the original field. */
  lemma ReadFieldEscaped(c: string, tail: string)
    requires tail == [] || tail[0] == ',' || tail[0] == '\n'
    ensures ReadField(EscapeCsv(Some(c)) + tail) == Some((c, tail))
  {
    if NeedsQuotes(c) {
      ReadQuotedField(c, tail);
    } else {
      ReadBareField(c, tail);
    }
  }

  lemma ReadQuotedField(c: string, tail: string)
    requires NeedsQuotes(c)
    requires tail == [] || tail[0] == ',' || tail[0] == '\n'
    ensures ReadField(EscapeCsv(Some(c)) + tail) == Some((c, tail))
  {
    var s := EscapeCsv(Some(c)) + tail;
    assert EscapeCsv(Some(c)) == "\"" + DoubleQuotes(c) + "\"";
    assert s[1..] == DoubleQuotes(c) + "\"" + tail;
    ReadQuotedDoubled(c, tail);
  }

  lemma ReadBareField(c: string, tail: string)
    requires !NeedsQuotes(c)
    requires tail == [] || tail[0] == ',' || tail[0] == '\n'
    ensures ReadField(EscapeCsv(Some(c)) + tail) == Some((c, tail))
  {
    var s := c + tail;
    if c != [] {
      assert s[0] == c[0];
    }
    ReadBareClean(c, tail);
  }

  lemma {:induction false} ReadFieldsEncoded(cells: seq<string>, tail: string)
    requires cells != []
    requires tail == [] || tail[0] == '\n'
    ensures ReadFields(EncodeRow(cells) + tail) == Some((cells, tail))
  {
    var e := EscapeAll(cells);
    if |cells| == 1 {
      assert EncodeRow(cells) == e[0];
      ReadFieldEscaped(cells[0], tail);
      assert [cells[0]] == cells;
    } else {
      var more := EncodeRow(cells[1..]);
      assert e[1..] == EscapeAll(cells[1..]);
      assert EncodeRow(cells) == e[0] + "," + more;
      assert EncodeRow(cells) + tail == e[0] + ("," + more + tail);
      ReadFieldEscaped(cells[0], "," + more + tail);
      assert ("," + more + tail)[1..] == more + tail;
      ReadFieldsEncoded(cells[1..], tail);
      assert [cells[0]] + cells[1..] == cells;
    }
  }

  /** A row other than a single empty cell reads back as itself. */
  lemma ReadRecordEncoded(cells: seq<string>, tail: string)
    requires cells != [""]
    requires tail == [] || tail[0] == '\n'
    ensures ReadRecord(EncodeRow(cells) + tail) == Some((cells, tail))
  {
    if cells == [] {
      assert EncodeRow(cells) + tail == tail;
    } else {
      ReadFieldsEncoded(cells, tail);
      var s := EncodeRow(cells) + tail;
      if s[0] == '\n' {
        assert EncodeRow(cells)[0] == '\n';
        ReadFieldsNotNewline(cells);
      }
    }
  }

  /** An encoded row never starts with a line feed: a field holding one is quoted. */
  lemma ReadFieldsNotNewline(cells: seq<string>)
    requires cells != [] && EncodeRow(cells) != []
    ensures EncodeRow(cells)[0] != '\n'
  {
    var e := EscapeAll(cells);
    var first := e[0];
    if |cells| > 1 {
      assert EncodeRow(cells) == first + "," + EncodeRow(cells[1..]);
    } else {
      assert EncodeRow(cells) == first;
    }
    if first != [] && !NeedsQuotes(cells[0]) {
      assert first[0] == cells[0][0];
    }
  }

  /**
   * Writing a sheet and reading it back gives the rows again, provided the sheet has
   * a row and no row is a single empty cell (which is written exactly like an empty row).
   */
  lemma {:induction false} SheetRoundTrip(rows: seq<seq<string>>)
    requires rows != []
    requires forall i :: 0 <= i < |rows| ==> rows[i] != [""]
    ensures ParseCsv(EncodeSheet(rows)) == Some(rows)
  {
    var lines := EncodeRows(rows);
    if |rows| == 1 {
      assert EncodeSheet(rows) == lines[0] == EncodeRow(rows[0]);
      ReadRecordEncoded(rows[0], []);
      assert EncodeRow(rows[0]) + [] == EncodeRow(rows[0]);
      assert [rows[0]] == rows;
    } else {
      var more := EncodeSheet(rows[1..]);
      assert lines[1..] == EncodeRows(rows[1..]);
      assert EncodeSheet(rows) == EncodeRow(rows[0]) + ("\n" + more);
      ReadRecordEncoded(rows[0], "\n" + more);
      assert ("\n" + more)[1..] == more;
      SheetRoundTrip(rows[1..]);
      assert [rows[0]] + rows[1..] == rows;
    }
  }

  // ---------------------------------------------------------------------------
  // The record as the writer reads it

  /** One entry of an array of specifics, read through `spec.name || spec.Name` and `spec.value || spec.Value`. */
  datatype SpecRecord = SpecRecord(name: Option<string>, upperName: Option<string>, value: Option<string>, upperValue: Option<string>)

  /** The two shapes the writer accepts for `itemSpecifics`: an array of records, or an object of label/value entries. */
  datatype RawSpecs = ArraySpecs(items: seq<SpecRecord>) | ObjectSpecs(entries: seq<(string, string)>)

  /** The fields the writer looks up on the listing record; `None` is `undefined`. */
  datatype SheetSource = SheetSource(
    itemId: Option<string>,
    title: string,
    description: Option<string>,
    itemSpecifics: Option<RawSpecs>)

  /** `a || b` where either side may be `undefined`. */
  function OrElse(a: Option<string>, b: Option<string>): (r: Option<string>)
    ensures a.Some? && a.value != "" ==> r == a
    ensures a.None? || a.value == "" ==> r == b
  {
    if a.Some? && a.value != "" then a else b
  }

  /** `${x}` in a template literal: `undefined` prints as the word. */
  function Show(x: Option<string>): string {
    if x.Some? then x.value else "undefined"
  }

  /** `${spec.name || spec.Name}: ${spec.value || spec.Value}`. */
  function SpecLine(spec: SpecRecord): string {
    Show(OrElse(spec.name, spec.upperName)) + ": " + Show(OrElse(spec.value, spec.upperValue))
  }

  /** `${k}: ${v}`. */
  function EntryLine(entry: (string, string)): string {
    entry.0 + ": " + entry.1
  }

  /** `currentSpecificsStr`: the specifics as `label: value` pairs separated by `; `, or empty when there are none. */
  function SpecificsText(raw: Option<RawSpecs>): string {
    match raw
    case None => ""
    case Some(ArraySpecs(items)) => Join(seq(|items|, i requires 0 <= i < |items| => SpecLine(items[i])), "; ")
    case Some(ObjectSpecs(entries)) => Join(seq(|entries|, i requires 0 <= i < |entries| => EntryLine(entries[i])), "; ")
  }

  /** `parsedData.itemId || 'N/A'`. */
  function ItemCell(itemId: Option<string>): (r: string)
    ensures r != ""
    ensures itemId.None? || itemId.value == "" ==> r == "N/A"
    ensures itemId.Some? && itemId.value != "" ==> r == itemId.value
  {
    Show(OrElse(itemId, Some("N/A")))
  }

  // ---------------------------------------------------------------------------
  // The sheet

  const TitleHeader: seq<string> := ["Item Number", "Current Title", "Recommended Title", "Why the change to Title is being suggested"]
  const DescriptionHeader: seq<string> := ["Item Number", "Current Description", "Recommended Description", "Why the change to description is being suggested"]
  const SpecificsHeader: seq<string> := ["Item Number", "Current Item Specifics", "Missing Item Specifics", "Why these specifics need to be added"]

  const TitleReason := "Optimized to prioritize high-volume keywords and place strong identifiers at the start for maximum search visibility."
  const DescriptionReason := "Restructured to remove 'walls of text', use bullet points, and improve mobile readability to boost conversion."
  const SpecificsReason := "Missing Item Specifics cause listings to disappear from filtered searches (Left Hand Navigation). Adding these ensures visibility."
  const DescriptionFallback := "See Original Listing"

  function TitleRow(id: string, src: SheetSource, report: AuditReport): seq<string> {
    [id, src.title, report.recommendedTitle, TitleReason]
  }

  /** `(parsedData as any).description || "See Original Listing"` is the current description. */
  function DescriptionRow(id: string, src: SheetSource, report: AuditReport): seq<string> {
    [id, Show(OrElse(src.description, Some(DescriptionFallback))), report.descriptionRewrite, DescriptionReason]
  }

  function SpecificsRow(id: string, current: string, missing: string): seq<string> {
    [id, current, missing, SpecificsReason]
  }

  /** The eleven rows of the audit sheet, in order. */
  function SheetRows(src: SheetSource, report: AuditReport): seq<seq<string>> {
    var id := ItemCell(src.itemId);
    [ TitleHeader, TitleRow(id, src, report), [], [],
      DescriptionHeader, DescriptionRow(id, src, report), [], [], [],
      SpecificsHeader, SpecificsRow(id, SpecificsText(src.itemSpecifics), Join(report.additions, ", ")) ]
  }

  /** `generateCsvContent`: the rows are pushed one by one and then written out. */
  method GenerateCsvContent(src: SheetSource, report: AuditReport) returns (csv: string)
    ensures csv == EncodeSheet(SheetRows(src, report))
  {
    var itemId := ItemCell(src.itemId);
    var currentSpecifics := "";
    if src.itemSpecifics.Some? {
      currentSpecifics := SpecificsText(src.itemSpecifics);
    }
    assert currentSpecifics == SpecificsText(src.itemSpecifics);
    var missingSpecifics := Join(report.additions, ", ");
    var rows: seq<seq<string>> := [];
    rows := rows + [TitleHeader];
    rows := rows + [TitleRow(itemId, src, report)];
    rows := rows + [[]];
    rows := rows + [[]];
    rows := rows + [DescriptionHeader];
    rows := rows + [DescriptionRow(itemId, src, report)];
    rows := rows + [[]];
    rows := rows + [[]];
    rows := rows + [[]];
    rows := rows + [SpecificsHeader];
    rows := rows + [SpecificsRow(itemId, currentSpecifics, missingSpecifics)];
    assert rows == SheetRows(src, report);
    csv := EncodeSheet(rows);
  }

  /**
   * The layout: eleven rows, blank rows 3, 4, 7, 8 and 9, headers in rows 1, 5 and 10
   * starting with "Item Number", every data row starting with the item-number cell,
   * and the missing-specifics cell holding the additions joined by ", ".
   */
  lemma SheetShape(src: SheetSource, report: AuditReport)
    ensures var rows := SheetRows(src, report);
      && |rows| == 11
      && rows[2] == rows[3] == rows[6] == rows[7] == rows[8] == []
      && rows[0] == TitleHeader && rows[4] == DescriptionHeader && rows[9] == SpecificsHeader
      && rows[0][0] == rows[4][0] == rows[9][0] == "Item Number"
      && |rows[1]| == |rows[5]| == |rows[10]| == 4
      && rows[1][0] == rows[5][0] == rows[10][0]
      && (src.itemId.None? || src.itemId.value == "" ==> rows[1][0] == "N/A")
      && rows[1][1] == src.title && rows[1][2] == report.recommendedTitle
      && rows[5][2] == report.descriptionRewrite
      && rows[10][2] == Join(report.additions, ", ")
  {
  }

  /** Reading the written sheet back gives the eleven rows, cell for cell. */
  lemma SheetReadsBack(src: SheetSource, report: AuditReport)
    ensures ParseCsv(EncodeSheet(SheetRows(src, report))) == Some(SheetRows(src, report))
  {
    var rows := SheetRows(src, report);
    assert forall i :: 0 <= i < |rows| ==> |rows[i]| == 0 || |rows[i]| == 4;
    SheetRoundTrip(rows);
  }

  /**
   * What a `ParsedListingData` looks like to the writer: it has no `itemId` and no
   * `description`, and its specifics carry `label` rather than `name`.
   */
  function SheetSourceOf(data: ParsedListingData): SheetSource {
    SheetSource(None, data.title, None,
      Some(ArraySpecs(seq(|data.itemSpecifics|, i requires 0 <= i < |data.itemSpecifics| =>
        SpecRecord(None, None, Some(data.itemSpecifics[i].value), None)))))
  }

  /**
   * For an extracted listing the item-number cells read "N/A", the current description
   * reads "See Original Listing", and every specific is listed as `undefined: <value>`
   * (`undefined: undefined` for an empty value): the labels never reach the sheet.
   */
  lemma ListingSheetCells(data: ParsedListingData, report: AuditReport)
    ensures var rows := SheetRows(SheetSourceOf(data), report);
      && rows[1][0] == rows[5][0] == rows[10][0] == "N/A"
      && rows[1][1] == data.title
      && rows[5][1] == DescriptionFallback
      && rows[10][1] == Join(seq(|data.itemSpecifics|, i requires 0 <= i < |data.itemSpecifics| =>
           "undefined: " + Show(OrElse(Some(data.itemSpecifics[i].value), None))), "; ")
  {
    var items := SheetSourceOf(data).itemSpecifics.value.items;
    forall i | 0 <= i < |items|
      ensures SpecLine(items[i]) == "undefined: " + Show(OrElse(Some(data.itemSpecifics[i].value), None))
    {
    }
    assert seq(|items|, i requires 0 <= i < |items| => SpecLine(items[i]))
        == seq(|data.itemSpecifics|, i requires 0 <= i < |data.itemSpecifics| =>
           "undefined: " + Show(OrElse(Some(data.itemSpecifics[i].value), None)));
  }
}
