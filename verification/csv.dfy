/** The CSV text built by `downloadCsv`: a header line `Description`, then
    one line per item holding its description as a quoted field in which
    every double quote is doubled (the escaping of section 2, rule 7, of
    RFC 4180), all joined with a bare line feed. The decoder below is the
    reading side of the same format and serves as the encoder's inverse. */
module Csv {
  import opened Wrappers
  import opened Strings
  import opened ActionItems

  /** The single column's header. */
  const Header: string := "Description"

  /** Every `"` doubled, everything else (commas, line breaks, any other
      character) left as it is. */
  function Escape(s: string): (r: string)
    ensures |r| == |s| + Count(s, '"')
  {
    if |s| == 0 then []
    else (if s[0] == '"' then "\"\"" else [s[0]]) + Escape(s[1..])
  }

  /** Every `""` collapsed back to `"`, scanning left to right. */
  function Unescape(s: string): string
  {
    if |s| == 0 then []
    else if |s| >= 2 && s[0] == '"' && s[1] == '"' then ['"'] + Unescape(s[2..])
    else [s[0]] + Unescape(s[1..])
  }

  /** Collapsing the doubled quotes of an escaped text recovers it. */
  lemma {:induction false} UnescapeEscape(s: string)
    ensures Unescape(Escape(s)) == s
  {
    if |s| > 0 {
      UnescapeEscape(s[1..]);
      var e := Escape(s[1..]);
      if s[0] == '"' {
        assert Escape(s) == "\"\"" + e;
        assert ("\"\"" + e)[2..] == e;
      } else {
        assert Escape(s) == [s[0]] + e;
        assert ([s[0]] + e)[1..] == e;
      }
      assert [s[0]] + s[1..] == s;
    }
  }

  /** Escaping adds and removes no character other than `"`. */
  lemma {:induction false} EscapeKeepsOthers(s: string, c: char)
    requires c != '"'
    ensures c in Escape(s) <==> c in s
  {
    if |s| > 0 {
      EscapeKeepsOthers(s[1..], c);
      var head := if s[0] == '"' then "\"\"" else [s[0]];
      assert Escape(s) == head + Escape(s[1..]);
      assert c in s <==> c == s[0] || c in s[1..] by {
        assert s == [s[0]] + s[1..];
      }
    }
  }

  /** One CSV row: the escaped description between double quotes. Its
      interior, unescaped, is the description again. */
  function Row(d: string): (r: string)
    ensures |r| == |d| + Count(d, '"') + 2
    ensures r[0] == '"' && r[|r| - 1] == '"'
    ensures Unescape(r[1..|r| - 1]) == d
  {
    var r := "\"" + Escape(d) + "\"";
    assert r[1..|r| - 1] == Escape(d);
    UnescapeEscape(d);
    r
  }

  /** The descriptions of the items, in order. */
  function Descriptions(items: seq<Item>): (ds: seq<string>)
    ensures |ds| == |items|
    ensures forall k :: 0 <= k < |items| ==> ds[k] == items[k].description
  {
    seq(|items|, k requires 0 <= k < |items| => items[k].description)
  }

  /** The rows of the descriptions, in order. */
  function Rows(ds: seq<string>): (rows: seq<string>)
    ensures |rows| == |ds|
    ensures forall k :: 0 <= k < |ds| ==> rows[k] == Row(ds[k])
  {
    seq(|ds|, k requires 0 <= k < |ds| => Row(ds[k]))
  }

  /** The CSV text of `downloadCsv`, or nothing when there are no items
      (the page returns before building anything and keeps the download
      button disabled). The text opens with the header and, because the
      last row closes with a quote, never ends in a line break. */
  function Export(items: seq<Item>): (r: Option<string>)
    ensures r.None? <==> |items| == 0
    ensures r.Some? ==> Header + "\n" <= r.value
    ensures r.Some? ==> r.value[|r.value| - 1] == '"'
  {
    if |items| == 0 then None
    else
      var rows := Rows(Descriptions(items));
      JoinLastChar(rows, '\n');
      Some(Join([Header] + rows, '\n'))
  }

  /** Joining a header in front of non-empty rows puts exactly one separator
      between them. */
  lemma JoinHeader(header: string, rows: seq<string>, sep: char)
    requires |rows| > 0
    ensures Join([header] + rows, sep) == header + [sep] + Join(rows, sep)
  {
    assert ([header] + rows)[1..] == rows;
  }

  /** The last character of a join of rows that all end in `"` is `"`. */
  lemma {:induction false} JoinLastChar(rows: seq<string>, sep: char)
    requires |rows| > 0
    requires forall k :: 0 <= k < |rows| ==> |rows[k]| > 0 && rows[k][|rows[k]| - 1] == '"'
    ensures |Join(rows, sep)| > 0 && Join(rows, sep)[|Join(rows, sep)| - 1] == '"'
    ensures forall h :: |Join([h] + rows, sep)| > 0 && Join([h] + rows, sep)[|Join([h] + rows, sep)| - 1] == '"'
  {
    if |rows| > 1 {
      JoinLastChar(rows[1..], sep);
    }
    forall h
      ensures |Join([h] + rows, sep)| > 0 && Join([h] + rows, sep)[|Join([h] + rows, sep)| - 1] == '"'
    {
      JoinHeader(h, rows, sep);
    }
  }

  /** Reads a quoted field's contents, the opening quote already consumed:
      `""` stands for `"` and a lone `"` closes the field. Yields the
      contents and the text after the closing quote, or nothing when the
      field never closes. */
  function ParseQuoted(s: string): (r: Option<(string, string)>)
    ensures r.Some? ==> |r.value.1| < |s|
  {
    if |s| == 0 then None
    else if s[0] == '"' then
      if |s| >= 2 && s[1] == '"' then
        match ParseQuoted(s[2..])
        case None => None
        case Some((v, rest)) => Some((['"'] + v, rest))
      else Some(([], s[1..]))
    else
      match ParseQuoted(s[1..])
      case None => None
      case Some((v, rest)) => Some(([s[0]] + v, rest))
  }

  /** Reads one or more quoted fields separated by single line feeds,
      running to the end of the text. */
  function ParseRecords(s: string): (r: Option<seq<string>>)
    ensures r.Some? ==> |r.value| > 0
    decreases |s|
  {
    if |s| == 0 || s[0] != '"' then None
    else
      match ParseQuoted(s[1..])
      case None => None
      case Some((v, rest)) =>
        if rest == [] then Some([v])
        else if rest[0] == '\n' then
          match ParseRecords(rest[1..])
          case None => None
          case Some(vs) => Some([v] + vs)
        else None
  }

  /** Reads a CSV text in the page's format back into descriptions: the
      header line, then at least one row. */
  function Decode(csv: string): (r: Option<seq<string>>)
    ensures r.Some? ==> |r.value| > 0
  {
    if Header + "\n" <= csv then ParseRecords(csv[|Header| + 1..]) else None
  }

  /** An escaped field followed by its closing quote reads back as the
      original text, leaving what follows untouched, as long as what
      follows does not start with another quote. */
  lemma {:induction false} ParseQuotedEscape(d: string, rest: string)
    requires rest == [] || rest[0] != '"'
    ensures ParseQuoted(Escape(d) + "\"" + rest) == Some((d, rest))
  {
    var s := Escape(d) + "\"" + rest;
    if |d| == 0 {
      assert s == ['"'] + rest;
      assert s[0] == '"' && s[1..] == rest;
      assert !(|s| >= 2 && s[1] == '"');
    } else {
      var tail := Escape(d[1..]) + "\"" + rest;
      ParseQuotedEscape(d[1..], rest);
      if d[0] == '"' {
        assert s == ['"', '"'] + tail;
        assert s[0] == '"' && s[1] == '"' && s[2..] == tail;
      } else {
        assert s == [d[0]] + tail;
        assert s[0] == d[0] && s[1..] == tail;
      }
      assert [d[0]] + d[1..] == d;
    }
  }

  /** A single row reads back as its description. */
  lemma ParseRecordsRow(d: string)
    ensures ParseRecords(Row(d)) == Some([d])
  {
    var r := Row(d);
    assert r == "\"" + Escape(d) + "\"";
    ParseQuotedEscape(d, []);
    assert r[1..] == Escape(d) + "\"" + [];
  }

  /** A row, a line feed and further records read back as the row's
      description followed by those records. */
  lemma ParseRecordsRowThen(d: string, tail: string, ds: seq<string>)
    requires ParseRecords(tail) == Some(ds)
    ensures ParseRecords(Row(d) + "\n" + tail) == Some([d] + ds)
  {
    var r := Row(d);
    var s := r + "\n" + tail;
    assert r == "\"" + Escape(d) + "\"";
    ParseQuotedEscape(d, "\n" + tail);
    assert s[0] == '"';
    assert s[1..] == Escape(d) + "\"" + ("\n" + tail);
    assert ("\n" + tail)[1..] == tail;
  }

  /** The joined rows read back as the descriptions they were made from. */
  lemma {:induction false} ParseRecordsRows(ds: seq<string>)
    requires |ds| > 0
    ensures ParseRecords(Join(Rows(ds), '\n')) == Some(ds)
    decreases |ds|
  {
    var rows := Rows(ds);
    if |ds| == 1 {
      assert Join(rows, '\n') == Row(ds[0]);
      ParseRecordsRow(ds[0]);
      assert ds == [ds[0]];
    } else {
      assert rows[1..] == Rows(ds[1..]);
      var tail := Join(Rows(ds[1..]), '\n');
      ParseRecordsRows(ds[1..]);
      assert Join(rows, '\n') == Row(ds[0]) + "\n" + tail;
      ParseRecordsRowThen(ds[0], tail, ds[1..]);
      assert [ds[0]] + ds[1..] == ds;
    }
  }

  /** Round trip: decoding an exported CSV text gives back every item's
      description, in order, whatever characters the descriptions hold. */
  lemma DecodeExport(items: seq<Item>)
    requires |items| > 0
    ensures Export(items).Some?
    ensures Decode(Export(items).value) == Some(Descriptions(items))
  {
    var ds := Descriptions(items);
    var csv := Export(items).value;
    JoinHeader(Header, Rows(ds), '\n');
    ParseRecordsRows(ds);
    assert csv[|Header| + 1..] == Join(Rows(ds), '\n');
  }

  /** A description without line breaks gives a row without line breaks. */
  lemma RowKeepsOutLineBreaks(d: string)
    requires '\n' !in d
    ensures '\n' !in Row(d)
  {
    EscapeKeepsOthers(d, '\n');
    assert Row(d) == "\"" + Escape(d) + "\"";
  }

  /** When no description holds a line break, the CSV text splits into
      exactly the header and one row per item, in order: one more line than
      there are items. */
  lemma ExportLines(items: seq<Item>)
    requires |items| > 0
    requires forall k :: 0 <= k < |items| ==> '\n' !in items[k].description
    ensures Export(items).Some?
    ensures Split(Export(items).value, '\n') == [Header] + Rows(Descriptions(items))
    ensures |Split(Export(items).value, '\n')| == |items| + 1
  {
    var lines := [Header] + Rows(Descriptions(items));
    forall k | 0 <= k < |lines|
      ensures '\n' !in lines[k]
    {
      if k > 0 {
        RowKeepsOutLineBreaks(items[k - 1].description);
      }
    }
    SplitJoin(lines, '\n');
  }

  /** The page end to end: exporting what the extractor found gives the
      header and then, line by line, the quoted description of each item;
      extracted descriptions never hold a line break. */
  lemma ExportExtracted(notes: string)
    requires |Extract(notes)| > 0
    ensures var items := Extract(notes);
      && Export(items).Some?
      && |Split(Export(items).value, '\n')| == |items| + 1
      && Split(Export(items).value, '\n')[0] == Header
      && (forall k :: 0 <= k < |items| ==>
            Split(Export(items).value, '\n')[k + 1] == Row(items[k].description))
      && Decode(Export(items).value) == Some(Descriptions(items))
  {
    var items := Extract(notes);
    DescriptionsWellFormed(notes);
    ExportLines(items);
    DecodeExport(items);
  }
}
