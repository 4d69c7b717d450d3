/**
 * The CSV import reader of the admin page (client/src/pages/AdminPage.tsx): `parseCSVLine`,
 * a quote-aware field scanner in the manner of rules 5-7 of section 2 of RFC 4180, and
 * `parseCSV`, which maps the data lines onto book rows through a case-insensitive header.
 */
module Csv {
  import opened Strings

  /** `s.split(sep)` for a one-character separator: the pieces between separators, never none. */
  function Split(s: string, sep: char): (r: seq<string>)
    ensures |r| >= 1
    ensures forall k :: 0 <= k < |r| ==> sep !in r[k]
  {
    if s == [] then [""]
    else
      var rest := Split(s[1..], sep);
      if s[0] == sep then [""] + rest
      else [[s[0]] + rest[0]] + rest[1..]
  }

  /** The pieces joined back with the separator. */
  function Join(pieces: seq<string>, sep: char): string
    requires |pieces| >= 1
  {
    if |pieces| == 1 then pieces[0] else pieces[0] + [sep] + Join(pieces[1..], sep)
  }

  function Count(s: string, c: char): nat {
    if s == [] then 0 else (if s[0] == c then 1 else 0) + Count(s[1..], c)
  }

  /** Splitting and joining are inverse: no character is lost or added, and there is one piece more than separators. */
  lemma {:induction false} SplitJoin(s: string, sep: char)
    ensures Join(Split(s, sep), sep) == s
    ensures |Split(s, sep)| == Count(s, sep) + 1
  {
    if s != [] {
      SplitJoin(s[1..], sep);
      var rest := Split(s[1..], sep);
      if s[0] == sep {
        assert Split(s, sep) == [""] + rest;
        assert Join(Split(s, sep), sep) == "" + [sep] + Join(rest, sep);
        assert s == [s[0]] + s[1..];
      } else {
        var r := Split(s, sep);
        assert r == [[s[0]] + rest[0]] + rest[1..];
        if |rest| == 1 {
          assert Join(r, sep) == [s[0]] + rest[0];
        } else {
          assert r[1..] == rest[1..];
          assert Join(r, sep) == [s[0]] + rest[0] + [sep] + Join(rest[1..], sep);
          assert Join(rest, sep) == rest[0] + [sep] + Join(rest[1..], sep);
        }
        assert s == [s[0]] + s[1..];
      }
    }
  }

  /** Every field trimmed, in order. */
  function TrimAll(fields: seq<string>): (r: seq<string>)
    ensures |r| == |fields|
  {
    if fields == [] then [] else TrimAll(fields[..|fields| - 1]) + [Trim(fields[|fields| - 1])]
  }

  lemma {:induction false} TrimAllAt(fields: seq<string>, k: int)
    requires 0 <= k < |fields|
    ensures TrimAll(fields)[k] == Trim(fields[k])
  {
    if k < |fields| - 1 {
      TrimAllAt(fields[..|fields| - 1], k);
    }
  }

  /**
   * The scanner of `parseCSVLine` as a function of the unread input `rest`, the quote state,
   * the field being built and the fields already finished; it yields the fields of the line
   * before trimming (the source trims each field as it finishes it, see `LineFields`).
   */
  function Scan(rest: string, inQuotes: bool, current: string, fields: seq<string>): (r: seq<string>)
    ensures |r| > |fields|
    decreases |rest|
  {
    if rest == [] then fields + [current]
    else if inQuotes then
      if rest[0] == '"' && |rest| > 1 && rest[1] == '"' then Scan(rest[2..], true, current + ['"'], fields)
      else if rest[0] == '"' then Scan(rest[1..], false, current, fields)
      else Scan(rest[1..], true, current + [rest[0]], fields)
    else if rest[0] == '"' then Scan(rest[1..], true, current, fields)
    else if rest[0] == ',' then Scan(rest[1..], false, "", fields + [current])
    else Scan(rest[1..], false, current + [rest[0]], fields)
  }

  /** The fields `parseCSVLine` returns for `line`: the scanned fields, each trimmed. */
  function LineFields(line: string): seq<string> {
    TrimAll(Scan(line, false, "", []))
  }

  /** Every line has at least one field, and no field starts or ends with whitespace. */
  lemma LineFieldsTrimmed(line: string)
    ensures |LineFields(line)| >= 1
    ensures forall k :: 0 <= k < |LineFields(line)| ==> IsTrimmed(LineFields(line)[k])
  {
    var raw := Scan(line, false, "", []);
    forall k | 0 <= k < |LineFields(line)| ensures IsTrimmed(LineFields(line)[k]) {
      TrimAllAt(raw, k);
    }
  }

  /** `parseCSVLine`: scans the line once, character by character, trimming each field as it ends. */
  method ParseCsvLine(line: string) returns (values: seq<string>)
    ensures values == LineFields(line)
  {
    values := [];
    ghost var raw: seq<string> := [];
    var current := "";
    var inQuotes := false;
    var i := 0;
    while i < |line|
      invariant 0 <= i <= |line|
      invariant Scan(line[i..], inQuotes, current, raw) == Scan(line, false, "", [])
      invariant values == TrimAll(raw)
    {
      var c := line[i];
      assert line[i..][0] == c && line[i..][1..] == line[i + 1..];
      if inQuotes {
        if c == '"' && i + 1 < |line| && line[i + 1] == '"' {
          assert line[i..][1] == line[i + 1] && line[i..][2..] == line[i + 2..];
          current := current + ['"'];
          i := i + 1;
        } else if c == '"' {
          inQuotes := false;
        } else {
          current := current + [c];
        }
      } else {
        if c == '"' {
          inQuotes := true;
        } else if c == ',' {
          values := values + [Trim(current)];
          raw := raw + [current];
          current := "";
        } else {
          current := current + [c];
        }
      }
      i := i + 1;
    }
    values := values + [Trim(current)];
    raw := raw + [current];
    assert line[i..] == [];
  }

  /** Without quotes the scanner splits at the commas. */
  lemma {:induction false} ScanUnquoted(rest: string, current: string, fields: seq<string>)
    requires '"' !in rest
    ensures var pieces := Split(rest, ',');
      Scan(rest, false, current, fields) == fields + [current + pieces[0]] + pieces[1..]
  {
    var pieces := Split(rest, ',');
    if rest == [] {
      assert current + pieces[0] == current;
    } else {
      var tail := Split(rest[1..], ',');
      assert '"' !in rest[1..] by {
        forall k | 0 <= k < |rest[1..]| ensures rest[1..][k] != '"' {
          assert rest[1..][k] == rest[k + 1];
        }
      }
      if rest[0] == ',' {
        ScanUnquoted(rest[1..], "", fields + [current]);
        assert pieces == [""] + tail;
        assert "" + tail[0] == tail[0] && current + pieces[0] == current;
        assert pieces[1..] == [tail[0]] + tail[1..];
      } else {
        ScanUnquoted(rest[1..], current + [rest[0]], fields);
        assert pieces == [[rest[0]] + tail[0]] + tail[1..];
        assert current + [rest[0]] + tail[0] == current + pieces[0];
      }
    }
  }

  /** A line without quotes has one field per comma plus one: the trimmed pieces between the commas. */
  lemma UnquotedLine(line: string)
    requires '"' !in line
    ensures LineFields(line) == TrimAll(Split(line, ','))
    ensures |LineFields(line)| == Count(line, ',') + 1
  {
    ScanUnquoted(line, "", []);
    var pieces := Split(line, ',');
    assert "" + pieces[0] == pieces[0];
    assert [] + [pieces[0]] + pieces[1..] == pieces;
    SplitJoin(line, ',');
  }

  /** A field written the RFC 4180 way: every quote doubled, the whole between quotes. */
  function Escape(f: string): string {
    if f == [] then [] else (if f[0] == '"' then "\"\"" else [f[0]]) + Escape(f[1..])
  }

  function Quote(f: string): string {
    "\"" + Escape(f) + "\""
  }

  function JoinQuoted(fields: seq<string>): string
    requires |fields| >= 1
  {
    if |fields| == 1 then Quote(fields[0]) else Quote(fields[0]) + "," + JoinQuoted(fields[1..])
  }

  /** Inside quotes a doubled quote yields one quote and every other character is kept, commas included. */
  lemma {:induction false} ScanEscaped(f: string, rest: string, current: string, fields: seq<string>)
    ensures Scan(Escape(f) + "\"" + rest, true, current, fields) == Scan("\"" + rest, true, current + f, fields)
  {
    var s := Escape(f) + "\"" + rest;
    if f == [] {
      assert s == "\"" + rest;
      assert current + f == current;
    } else {
      var s' := Escape(f[1..]) + "\"" + rest;
      var c := f[0];
      if c == '"' {
        assert s == "\"\"" + s';
        assert s[0] == '"' && s[1] == '"' && s[2..] == s';
        assert Scan(s, true, current, fields) == Scan(s', true, current + [c], fields);
      } else {
        assert s == [c] + s';
        assert s[0] == c && s[1..] == s';
        assert Scan(s, true, current, fields) == Scan(s', true, current + [c], fields);
      }
      ScanEscaped(f[1..], rest, current + [c], fields);
      assert current + [c] + f[1..] == current + f;
    }
  }

  /** A quoted section adds its unescaped text to the current field; the quotes themselves are not kept. */
  lemma ScanQuoted(f: string, rest: string, current: string, fields: seq<string>)
    requires rest == [] || rest[0] != '"'
    ensures Scan(Quote(f) + rest, false, current, fields) == Scan(rest, false, current + f, fields)
  {
    var s := Quote(f) + rest;
    assert s[1..] == Escape(f) + "\"" + rest;
    ScanEscaped(f, rest, current, fields);
    var t := "\"" + rest;
    assert t[1..] == rest;
  }

  lemma {:induction false} ScanJoinQuoted(fields: seq<string>, done: seq<string>)
    requires |fields| >= 1
    ensures Scan(JoinQuoted(fields), false, "", done) == done + fields
  {
    if |fields| == 1 {
      ScanQuoted(fields[0], [], "", done);
      assert Quote(fields[0]) + [] == JoinQuoted(fields);
      assert "" + fields[0] == fields[0];
      assert [fields[0]] == fields;
    } else {
      var rest := "," + JoinQuoted(fields[1..]);
      assert JoinQuoted(fields) == Quote(fields[0]) + rest;
      ScanQuoted(fields[0], rest, "", done);
      assert "" + fields[0] == fields[0];
      assert rest[1..] == JoinQuoted(fields[1..]);
      ScanJoinQuoted(fields[1..], done + [fields[0]]);
      assert done + [fields[0]] + fields[1..] == done + fields;
    }
  }

  /** Round trip: a line of quoted fields, separated by commas, reads back as those fields, trimmed. */
  lemma QuotedLineFields(fields: seq<string>)
    requires |fields| >= 1
    ensures LineFields(JoinQuoted(fields)) == TrimAll(fields)
  {
    ScanJoinQuoted(fields, []);
    assert [] + fields == fields;
  }

  /** One book row of the import preview; a column the header lacks reads as the empty string. */
  datatype ParsedRow = ParsedRow(
    title: string, author: string, year: string, country: string,
    originalLanguage: string, bookType: string, introduction: string)

  /** `text.split(/\r?\n/)`: split at line feeds, dropping one carriage return just before each. */
  function SplitLines(text: string): (r: seq<string>)
    ensures |r| >= 1
  {
    var pieces := Split(text, '\n');
    seq(|pieces|, k requires 0 <= k < |pieces| =>
      if k < |pieces| - 1 && pieces[k] != [] && pieces[k][|pieces[k]| - 1] == '\r'
      then pieces[k][..|pieces[k]| - 1] else pieces[k])
  }

  /** The lines that are not blank after trimming, in order. */
  function NonBlank(lines: seq<string>): (r: seq<string>)
    ensures |r| <= |lines|
    ensures forall l :: l in r <==> l in lines && Trim(l) != []
  {
    if lines == [] then []
    else (if Trim(lines[0]) != [] then [lines[0]] else []) + NonBlank(lines[1..])
  }

  /** The filter keeps the order of the lines: filtering two runs of lines is filtering each. */
  lemma {:induction false} NonBlankAppend(a: seq<string>, b: seq<string>)
    ensures NonBlank(a + b) == NonBlank(a) + NonBlank(b)
  {
    if a == [] {
      assert a + b == b;
    } else {
      assert (a + b)[0] == a[0] && (a + b)[1..] == a[1..] + b;
      NonBlankAppend(a[1..], b);
    }
  }

  /** Lines that are all non-blank are kept as they are. */
  lemma {:induction false} NonBlankKeepsAll(lines: seq<string>)
    requires forall k :: 0 <= k < |lines| ==> Trim(lines[k]) != []
    ensures NonBlank(lines) == lines
  {
    if lines != [] {
      NonBlankKeepsAll(lines[1..]);
    }
  }

  /** The header's replace of `^"(.*)"$` by its group: one pair of surrounding quotes removed. */
  function Unquote(h: string): (r: string)
    ensures r == h || h == "\"" + r + "\""
    ensures r != h <==>
      |h| >= 2 && h[0] == '"' && h[|h| - 1] == '"' && forall k :: 1 <= k < |h| - 1 ==> !IsLineTerminator(h[k])
  {
    if |h| >= 2 && h[0] == '"' && h[|h| - 1] == '"'
       && forall k | 1 <= k < |h| - 1 :: !IsLineTerminator(h[k])
    then h[1..|h| - 1]
    else h
  }

  /** The header cells: a plain split at commas, trimmed, surrounding quotes removed. */
  function HeaderCells(line: string): (r: seq<string>)
    ensures |r| == |Split(line, ',')|
    ensures forall k :: 0 <= k < |r| ==>
      var cell := Trim(Split(line, ',')[k]);
      r[k] == cell || cell == "\"" + r[k] + "\""
  {
    var cells := Split(line, ',');
    seq(|cells|, k requires 0 <= k < |cells| => Unquote(Trim(cells[k])))
  }

  /**
   * `getIndex` over the header map: the cells are keyed by their lower-case form and, as in
   * a `Map` built from a list, a later cell overrides an earlier one; -1 when none matches.
   */
  function HeaderIndex(header: seq<string>, name: string): (r: int)
    ensures -1 <= r < |header|
    ensures r >= 0 ==> ToLower(header[r]) == ToLower(name)
    ensures r >= 0 ==> forall k :: r < k < |header| ==> ToLower(header[k]) != ToLower(name)
    ensures r == -1 <==> forall k :: 0 <= k < |header| ==> ToLower(header[k]) != ToLower(name)
  {
    if header == [] then -1
    else if ToLower(header[|header| - 1]) == ToLower(name) then |header| - 1
    else HeaderIndex(header[..|header| - 1], name)
  }

  /** `values[index] || ''`: a missing index reads as the empty string. */
  function FieldAt(values: seq<string>, index: int): string {
    if 0 <= index < |values| then values[index] else ""
  }

  /** The position of each book column in the header, or -1 when the header lacks it. */
  datatype Columns = Columns(
    title: int, author: int, year: int, country: int,
    originalLanguage: int, bookType: int, introduction: int)

  function ColumnsOf(header: seq<string>): Columns {
    Columns(
      HeaderIndex(header, "title"), HeaderIndex(header, "author"), HeaderIndex(header, "year"),
      HeaderIndex(header, "country"), HeaderIndex(header, "originallanguage"),
      HeaderIndex(header, "type"), HeaderIndex(header, "introduction"))
  }

  function RowAt(columns: Columns, values: seq<string>): ParsedRow {
    ParsedRow(
      FieldAt(values, columns.title), FieldAt(values, columns.author), FieldAt(values, columns.year),
      FieldAt(values, columns.country), FieldAt(values, columns.originalLanguage),
      FieldAt(values, columns.bookType), FieldAt(values, columns.introduction))
  }

  /** `values[getIndex(name)] || ''` of a column named nowhere in the header (in any letter case) is the empty string. */
  lemma MissingColumnReadsEmpty(header: seq<string>, values: seq<string>, name: string)
    requires forall k :: 0 <= k < |header| ==> ToLower(header[k]) != ToLower(name)
    ensures FieldAt(values, HeaderIndex(header, name)) == ""
  {
  }

  /** Whatever the header lacks, in any letter case, reads as the empty string in every row. */
  lemma MissingColumnIsEmpty(header: seq<string>, values: seq<string>)
    ensures var row := RowAt(ColumnsOf(header), values);
      && ((forall k :: 0 <= k < |header| ==> ToLower(header[k]) != "title") ==> row.title == "")
      && ((forall k :: 0 <= k < |header| ==> ToLower(header[k]) != "author") ==> row.author == "")
      && ((forall k :: 0 <= k < |header| ==> ToLower(header[k]) != "year") ==> row.year == "")
      && ((forall k :: 0 <= k < |header| ==> ToLower(header[k]) != "country") ==> row.country == "")
      && ((forall k :: 0 <= k < |header| ==> ToLower(header[k]) != "originallanguage") ==> row.originalLanguage == "")
      && ((forall k :: 0 <= k < |header| ==> ToLower(header[k]) != "type") ==> row.bookType == "")
      && ((forall k :: 0 <= k < |header| ==> ToLower(header[k]) != "introduction") ==> row.introduction == "")
  {
    assert ToLower("title") == "title" && ToLower("author") == "author" && ToLower("year") == "year";
    assert ToLower("country") == "country" && ToLower("originallanguage") == "originallanguage";
    assert ToLower("type") == "type" && ToLower("introduction") == "introduction";
  }

  /** The loop of `parseCSV` over the data lines `lines[1..]`, for fixed column positions. */
  method ReadRows(lines: seq<string>, columns: Columns) returns (rows: seq<ParsedRow>)
    requires |lines| >= 1
    ensures |rows| == |lines| - 1
    ensures forall k :: 0 <= k < |rows| ==> rows[k] == RowAt(columns, LineFields(lines[k + 1]))
  {
    rows := [];
    var i := 1;
    while i < |lines|
      invariant 1 <= i <= |lines|
      invariant |rows| == i - 1
      invariant forall k :: 0 <= k < i - 1 ==> rows[k] == RowAt(columns, LineFields(lines[k + 1]))
    {
      var values := ParseCsvLine(lines[i]);
      rows := rows + [RowAt(columns, values)];
      i := i + 1;
    }
  }

  /**
   * `parseCSV`: no rows unless there are a header and at least one data line; otherwise one
   * row per non-blank line after the header, read through the header's column positions.
   */
  method ParseCsv(text: string) returns (rows: seq<ParsedRow>)
    ensures var lines := NonBlank(SplitLines(text));
      && (|lines| < 2 ==> rows == [])
      && (|lines| >= 2 ==> |rows| == |lines| - 1)
      && (|lines| >= 2 ==> forall k :: 0 <= k < |rows| ==>
            rows[k] == RowAt(ColumnsOf(HeaderCells(lines[0])), LineFields(lines[k + 1])))
  {
    var lines := NonBlank(SplitLines(text));
    if |lines| < 2 {
      return [];
    }
    rows := ReadRows(lines, ColumnsOf(HeaderCells(lines[0])));
  }
}
