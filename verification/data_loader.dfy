/** `loadImageData` of src/utils/dataLoader.ts: the tab-separated image table
    read into `ImageData` records, after a check that the header names the
    three columns the experiment needs. */
module DataLoader {
  import opened Wrappers
  import opened Strings
  import opened Types

  /** `requiredColumns`. */
  const RequiredColumns: seq<string> := ["png", "target", "antonym"]

  /** `requiredColumns.filter(col => !headers.includes(col))`, for any list
      of required names. */
  function MissingFrom(required: seq<string>, headers: seq<string>): seq<string>
  {
    if |required| == 0 then []
    else (if required[0] in headers then [] else [required[0]]) + MissingFrom(required[1..], headers)
  }

  /** A required name is reported exactly when the header lacks it, and the
      report never holds more names than are required. */
  lemma {:induction false} MissingFromMeaning(required: seq<string>, headers: seq<string>)
    ensures forall c :: c in MissingFrom(required, headers) <==> c in required && c !in headers
    ensures |MissingFrom(required, headers)| <= |required|
    ensures MissingFrom(required, headers) == [] <==> forall i :: 0 <= i < |required| ==> required[i] in headers
    decreases |required|
  {
    if |required| > 0 {
      MissingFromMeaning(required[1..], headers);
      assert required == [required[0]] + required[1..];
    }
  }

  /** The `i`-th tab-separated value of a line; a value past the end is
      `undefined` in the source and the empty string here. */
  function Field(values: seq<string>, i: nat): string {
    if i < |values| then values[i] else ""
  }

  /** The record of the data line at position `index` (counting from 0 after
      the header): the first three values, taken by position. */
  function RecordOf(line: string, index: nat): ImageData {
    var values := Split(line, '\t');
    var fileName := Field(values, 0);
    ImageData(ImageId(index), fileName, "/images/" + fileName,
              Field(values, 1), Field(values, 2), "")
  }

  /** `img_${index + 1}`. */
  function ImageId(index: nat): string {
    "img_" + NatToString(index + 1)
  }

  /** The lines of the trimmed text. */
  function Lines(text: string): (lines: seq<string>)
    ensures |lines| >= 1
  {
    Split(Trim(text), '\n')
  }

  /** `loadImageData` on the fetched text: the missing column names when the
      header lacks one of them (the thrown error), else one record per line
      after the header. */
  function LoadImageData(text: string): Result<seq<ImageData>, seq<string>> {
    LoadLines(Lines(text))
  }

  /** The same on the lines of the text. */
  function LoadLines(lines: seq<string>): Result<seq<ImageData>, seq<string>>
    requires |lines| >= 1
  {
    var missing := MissingFrom(RequiredColumns, Split(lines[0], '\t'));
    if |missing| > 0 then Failure(missing) else Success(Records(lines))
  }

  /** `lines.slice(1).map(...)`. */
  function Records(lines: seq<string>): (images: seq<ImageData>)
    requires |lines| >= 1
    ensures |images| == |lines| - 1
    ensures forall i :: 0 <= i < |images| ==> images[i] == RecordOf(lines[i + 1], i)
  {
    seq(|lines| - 1, i requires 0 <= i < |lines| - 1 => RecordOf(lines[i + 1], i))
  }

  /** The load fails exactly when the header lacks `png`, `target` or
      `antonym`, and then names exactly the missing ones. */
  lemma LoadFailsOnMissingColumn(text: string)
    ensures var headers := Split(Lines(text)[0], '\t');
      && (LoadImageData(text).Failure? <==> !("png" in headers && "target" in headers && "antonym" in headers))
      && (LoadImageData(text).Failure? ==>
            forall c :: c in LoadImageData(text).error <==> c in RequiredColumns && c !in headers)
  {
    HeaderCheck(Lines(text));
  }

  lemma HeaderCheck(lines: seq<string>)
    requires |lines| >= 1
    ensures var headers := Split(lines[0], '\t');
      && (LoadLines(lines).Failure? <==> !("png" in headers && "target" in headers && "antonym" in headers))
      && (LoadLines(lines).Failure? ==>
            forall c :: c in LoadLines(lines).error <==> c in RequiredColumns && c !in headers)
  {
    MissingFromMeaning(RequiredColumns, Split(lines[0], '\t'));
  }

  /** A successful load gives one record per data line, numbered `img_1`,
      `img_2`, … in line order, each with the `/images/` address of its file
      name, the first three values of its line and an empty model. */
  lemma LoadRecords(text: string)
    requires LoadImageData(text).Success?
    ensures var lines, images := Lines(text), LoadImageData(text).value;
      && |images| == |lines| - 1
      && forall i :: 0 <= i < |images| ==>
           var values := Split(lines[i + 1], '\t');
           && images[i].id == ImageId(i)
           && images[i].fileName == values[0]
           && images[i].url == "/images/" + values[0]
           && images[i].target == Field(values, 1)
           && images[i].antonym == Field(values, 2)
           && images[i].model == ""
  {
    var lines := Lines(text);
    assert LoadImageData(text) == LoadLines(lines);
  }

  /** No two records of a load share an id. */
  lemma LoadIdsDistinct(text: string)
    requires LoadImageData(text).Success?
    ensures var images := LoadImageData(text).value;
      forall i, j :: 0 <= i < j < |images| ==> images[i].id != images[j].id
  {
    LoadRecords(text);
    forall i: nat, j: nat | i < j
      ensures ImageId(i) != ImageId(j)
    {
      if ImageId(i) == ImageId(j) {
        ImageIdInjective(i, j);
      }
    }
  }

  /** Distinct line positions give distinct ids. */
  lemma ImageIdInjective(i: nat, j: nat)
    requires ImageId(i) == ImageId(j)
    ensures i == j
  {
    var a, b := NatToString(i + 1), NatToString(j + 1);
    assert a == ImageId(i)[4..] && b == ImageId(j)[4..];
    NatToStringInjective(i + 1, j + 1);
  }

  /** One data line written as the source expects it: file name, target and
      antonym separated by tabs. */
  datatype Row = Row(fileName: string, target: string, antonym: string)

  /** The header line the source requires. */
  const Header: string := RowLine(Row("png", "target", "antonym"))

  function RowLine(r: Row): string {
    Join([r.fileName, r.target, r.antonym], '\t')
  }

  /** A table file: the header and one line per row. */
  function FormatTable(rows: seq<Row>): string {
    Join(TableLines(rows), '\n')
  }

  /** A row without tabs or line breaks in its values. */
  predicate PlainRow(r: Row) {
    '\t' !in r.fileName && '\t' !in r.target && '\t' !in r.antonym
    && '\n' !in r.fileName && '\n' !in r.target && '\n' !in r.antonym
  }

  /** The lines of a table file. */
  function TableLines(rows: seq<Row>): (lines: seq<string>)
    ensures |lines| == |rows| + 1
  {
    [Header] + seq(|rows|, i requires 0 <= i < |rows| => RowLine(rows[i]))
  }

  /** Reading a table file written from plain rows gives those rows back as
      records, as long as `trim` leaves the end of the file alone: the last
      antonym is not empty and does not end in white space. */
  lemma LoadFormatted(rows: seq<Row>)
    requires forall i :: 0 <= i < |rows| ==> PlainRow(rows[i])
    requires |rows| > 0 ==> var a := rows[|rows| - 1].antonym; |a| > 0 && !IsSpace(a[|a| - 1])
    ensures LoadImageData(FormatTable(rows)).Success?
    ensures var images := LoadImageData(FormatTable(rows)).value;
      && |images| == |rows|
      && forall i :: 0 <= i < |rows| ==>
           && images[i].fileName == rows[i].fileName
           && images[i].target == rows[i].target
           && images[i].antonym == rows[i].antonym
  {
    FormattedLines(rows);
    assert LoadImageData(FormatTable(rows)) == LoadLines(TableLines(rows));
    LoadTableLines(rows);
  }

  /** The records read from the lines of a table of plain rows. */
  lemma LoadTableLines(rows: seq<Row>)
    requires forall i :: 0 <= i < |rows| ==> PlainRow(rows[i])
    ensures LoadLines(TableLines(rows)).Success?
    ensures var images := LoadLines(TableLines(rows)).value;
      && |images| == |rows|
      && forall i :: 0 <= i < |rows| ==>
           && images[i].fileName == rows[i].fileName
           && images[i].target == rows[i].target
           && images[i].antonym == rows[i].antonym
  {
    HeaderPasses(TableLines(rows));
    forall i | 0 <= i < |rows|
      ensures var image := LoadLines(TableLines(rows)).value[i];
        image.fileName == rows[i].fileName && image.target == rows[i].target && image.antonym == rows[i].antonym
    {
      RecordAt(rows, i);
    }
  }

  /** The record read from the line of row `i`. */
  lemma RecordAt(rows: seq<Row>, i: nat)
    requires i < |rows| && PlainRow(rows[i])
    ensures LoadLines(TableLines(rows)).Success?
    ensures var image := LoadLines(TableLines(rows)).value[i];
      image.fileName == rows[i].fileName && image.target == rows[i].target && image.antonym == rows[i].antonym
  {
    var lines := TableLines(rows);
    HeaderPasses(lines);
    assert lines[i + 1] == RowLine(rows[i]);
    RecordOfRow(rows[i], i);
  }

  /** The record of a plain row's line holds the row's values. */
  lemma RecordOfRow(r: Row, index: nat)
    requires PlainRow(r)
    ensures var image := RecordOf(RowLine(r), index);
      image.fileName == r.fileName && image.target == r.target && image.antonym == r.antonym
  {
    var values := [r.fileName, r.target, r.antonym];
    SplitJoin(values, '\t');
    assert Field(values, 1) == r.target && Field(values, 2) == r.antonym;
  }

  /** Lines that start with the header pass the column check. */
  lemma HeaderPasses(lines: seq<string>)
    requires |lines| >= 1 && lines[0] == Header
    ensures LoadLines(lines).Success? && |LoadLines(lines).value| == |lines| - 1
  {
    HeaderColumns();
    assert MissingFrom(RequiredColumns, Split(lines[0], '\t')) == [];
  }

  /** The header names the three columns. */
  lemma HeaderColumns()
    ensures Split(Header, '\t') == RequiredColumns
  {
    SplitJoin(RequiredColumns, '\t');
  }

  /** The lines of a formatted table are the header and the rows' lines. */
  lemma FormattedLines(rows: seq<Row>)
    requires forall i :: 0 <= i < |rows| ==> PlainRow(rows[i])
    requires |rows| > 0 ==> var a := rows[|rows| - 1].antonym; |a| > 0 && !IsSpace(a[|a| - 1])
    ensures Lines(FormatTable(rows)) == TableLines(rows)
  {
    var lines := TableLines(rows);
    var text := FormatTable(rows);
    forall i | 0 <= i < |lines|
      ensures '\n' !in lines[i] && |lines[i]| > 0
    {
      if i > 0 {
        RowLineShape(rows[i - 1]);
      }
    }
    if |rows| > 0 {
      RowLineShape(rows[|rows| - 1]);
    }
    LinesEnd(lines, text);
    TrimOfTrimmed(text);
    SplitJoin(lines, '\n');
  }

  /** A row's line is its three values with a tab after each of the first
      two. */
  lemma RowLineShape(r: Row)
    ensures RowLine(r) == r.fileName + ['\t'] + r.target + ['\t'] + r.antonym
  {
    var parts := [r.fileName, r.target, r.antonym];
    assert parts[1..] == [r.target, r.antonym];
    assert parts[1..][1..] == [r.antonym];
    assert Join(parts[1..], '\t') == r.target + ['\t'] + r.antonym;
    assert RowLine(r) == r.fileName + ['\t'] + (r.target + ['\t'] + r.antonym);
  }

  /** The table text starts with the header's `p` and ends with the last
      line's last character. */
  lemma LinesEnd(lines: seq<string>, text: string)
    requires |lines| >= 1 && lines[0] == Header
    requires forall i :: 0 <= i < |lines| ==> |lines[i]| > 0
    requires |lines| > 1 ==> var a := lines[|lines| - 1]; |a| > 0 && !IsSpace(a[|a| - 1])
    requires text == Join(lines, '\n')
    ensures |text| > 0 && !IsSpace(text[0]) && !IsSpace(text[|text| - 1])
  {
    JoinEnds(lines, '\n');
  }

  /** A join of non-empty pieces starts with the first piece's first character
      and ends with the last piece's last character. */
  lemma {:induction false} JoinEnds(parts: seq<string>, d: char)
    requires |parts| >= 1 && forall i :: 0 <= i < |parts| ==> |parts[i]| > 0
    ensures var s := Join(parts, d);
      && |s| > 0 && s[0] == parts[0][0] && s[|s| - 1] == parts[|parts| - 1][|parts[|parts| - 1]| - 1]
    decreases |parts|
  {
    if |parts| > 1 {
      JoinEnds(parts[1..], d);
    }
  }

  /** A file written with Windows line ends keeps a carriage return at the end
      of the header line, so the check reports `antonym` as missing: the
      lines here are those of the trimmed text, as `LoadImageData` reads
      them. */
  lemma WindowsLineEndsRejected(lines: seq<string>)
    requires |lines| >= 1 && lines[0] == RowLine(Row("png", "target", "antonym\r"))
    ensures LoadLines(lines) == Failure(["antonym"])
  {
    CrHeaderSplit();
    CrHeaderMissing();
  }

  /** A header line ending in a carriage return splits into names whose
      last one keeps the carriage return. */
  lemma CrHeaderSplit()
    ensures Split(RowLine(Row("png", "target", "antonym\r")), '\t') == ["png", "target", "antonym\r"]
  {
    SplitJoin(["png", "target", "antonym\r"], '\t');
  }

  /** Against such names only `antonym` is missing. */
  lemma CrHeaderMissing()
    ensures MissingFrom(RequiredColumns, ["png", "target", "antonym\r"]) == ["antonym"]
  {
    var headers := ["png", "target", "antonym\r"];
    assert "antonym" != headers[2] by {
      assert |"antonym"| != |headers[2]|;
    }
    assert "antonym" !in headers;
    assert RequiredColumns[1..][1..] == ["antonym"];
  }
}
