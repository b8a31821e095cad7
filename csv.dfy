/** `parseCsv` of the web client: a deliberately naive CSV reader for the import
    dialog. Lines are split on LF or CRLF, trimmed, and blank ones dropped; the first
    remaining line names the columns; every other line becomes one row object keyed by
    those names. Cells are split on a bare comma: there is no quoting. */
module Csv {
  import opened JsText

  /** One row object: header name to trimmed cell. */
  type Row = map<string, string>

  /** A piece of `/\r?\n/` splitting loses the carriage return of its CRLF. */
  function StripCR(p: string): string {
    if p != [] && p[|p| - 1] == '\r' then p[..|p| - 1] else p
  }

  /** The pieces but the last were each ended by a line feed, and lose one carriage
      return just before it. */
  function StripCRs(pieces: seq<string>): seq<string> {
    seq(|pieces|, i requires 0 <= i < |pieces| => if i < |pieces| - 1 then StripCR(pieces[i]) else pieces[i])
  }

  /** `text.split(/\r?\n/)`. */
  function SplitLines(text: string): seq<string> {
    StripCRs(Split(text, '\n'))
  }

  /** The carriage return a piece loses does not survive trimming anyway. */
  lemma TrimStripCR(p: string)
    ensures Trim(StripCR(p)) == Trim(p)
  {
    if p != [] && p[|p| - 1] == '\r' {
      assert p == p[..|p| - 1] + ['\r'];
      TrimIgnoresTrailingSpace(p[..|p| - 1], '\r');
    }
  }

  lemma StripCRsTrimAway(pieces: seq<string>)
    ensures |StripCRs(pieces)| == |pieces|
    ensures forall i :: 0 <= i < |pieces| ==> Trim(StripCRs(pieces)[i]) == Trim(pieces[i])
  {
    forall i | 0 <= i < |pieces| ensures Trim(StripCRs(pieces)[i]) == Trim(pieces[i]) {
      var q := StripCRs(pieces)[i];
      if i < |pieces| - 1 {
        assert q == StripCR(pieces[i]);
        TrimStripCR(pieces[i]);
      } else {
        assert q == pieces[i];
      }
    }
  }

  /** `map((l) => l.trim())`. */
  function TrimmedAll(pieces: seq<string>): seq<string> {
    seq(|pieces|, i requires 0 <= i < |pieces| => Trim(pieces[i]))
  }

  /** `filter((l) => l.length > 0)`. */
  function NonEmpty(lines: seq<string>): (kept: seq<string>)
    ensures |kept| <= |lines|
    ensures forall k :: 0 <= k < |kept| ==> kept[k] != []
    ensures kept == [] <==> forall i :: 0 <= i < |lines| ==> lines[i] == []
  {
    if lines == [] then []
    else
      var init := lines[..|lines| - 1];
      var l := lines[|lines| - 1];
      assert forall i :: 0 <= i < |init| ==> init[i] == lines[i];
      if l != [] then NonEmpty(init) + [l] else NonEmpty(init)
  }

  /** `filter` keeps the input order: a line in front is kept in front, when it is kept. */
  lemma {:induction false} NonEmptyCons(l: string, ls: seq<string>)
    ensures NonEmpty([l] + ls) == (if l == [] then [] else [l]) + NonEmpty(ls)
    decreases |ls|
  {
    if ls != [] {
      var init := ls[..|ls| - 1];
      var last := ls[|ls| - 1];
      assert ([l] + ls)[..|ls|] == [l] + init;
      assert ([l] + ls)[|ls|] == last;
      NonEmptyCons(l, init);
    }
  }

  /** The first kept line is the first non-blank line of the input. */
  lemma {:induction false} FirstKept(lines: seq<string>, i: int)
    requires 0 <= i < |lines| && lines[i] != []
    requires forall j :: 0 <= j < i ==> lines[j] == []
    ensures NonEmpty(lines) != [] && NonEmpty(lines)[0] == lines[i]
    decreases i
  {
    assert lines == [lines[0]] + lines[1..];
    NonEmptyCons(lines[0], lines[1..]);
    if i > 0 {
      FirstKept(lines[1..], i - 1);
    }
  }

  /** The non-blank, trimmed lines of the input. */
  function Lines(text: string): seq<string> {
    NonEmpty(TrimmedAll(SplitLines(text)))
  }

  /** The header line is the first line of the input that is not blank once trimmed. */
  lemma HeaderLineIsFirstNonBlank(text: string, i: int)
    requires 0 <= i < |SplitLines(text)| && Trim(SplitLines(text)[i]) != []
    requires forall j :: 0 <= j < i ==> Trim(SplitLines(text)[j]) == []
    ensures Lines(text) != [] && Lines(text)[0] == Trim(SplitLines(text)[i])
  {
    FirstKept(TrimmedAll(SplitLines(text)), i);
  }

  lemma TrimmedAllIgnoresCR(pieces: seq<string>)
    ensures TrimmedAll(StripCRs(pieces)) == TrimmedAll(pieces)
  {
    StripCRsTrimAway(pieces);
  }

  /** Once lines are trimmed, splitting on CRLF or on a bare LF makes no difference. */
  lemma LinesSplitOnLf(text: string)
    ensures Lines(text) == NonEmpty(TrimmedAll(Split(text, '\n')))
  {
    TrimmedAllIgnoresCR(Split(text, '\n'));
  }

  /** `line.split(',').map((h) => h.trim())`. */
  function Headers(line: string): seq<string> {
    TrimmedAll(Split(line, ','))
  }

  /** `cols[idx] || ''`: the cell, or the empty string past the last one. */
  function ColAt(cols: seq<string>, idx: int): string {
    if 0 <= idx < |cols| then cols[idx] else ""
  }

  /** No later header has the same name as `headers[idx]`. */
  predicate LastOccurrence(headers: seq<string>, idx: int)
    requires 0 <= idx < |headers|
  {
    forall j :: idx < j < |headers| ==> headers[j] != headers[idx]
  }

  /** The position of the last header called `h`. */
  function LastIndex(headers: seq<string>, h: string): (idx: nat)
    requires h in headers
    ensures idx < |headers| && headers[idx] == h && LastOccurrence(headers, idx)
  {
    var n := |headers| - 1;
    if headers[n] == h then n
    else
      assert headers == headers[..n] + [headers[n]];
      var idx := LastIndex(headers[..n], h);
      assert headers[idx] == headers[..n][idx];
      assert forall j :: idx < j < n ==> headers[j] == headers[..n][j];
      idx
  }

  /** The trimmed cell under each of `n` headers: `(cols[idx] || '').trim()`. */
  function Cells(cols: seq<string>, n: nat): (cells: seq<string>)
    ensures |cells| == n
  {
    seq(n, idx requires 0 <= idx < n => Trim(ColAt(cols, idx)))
  }

  /** The object the `forEach` over the headers builds for one line: exactly the header
      names as keys, each holding the cell at its position; when a name is repeated,
      the cell of its last occurrence wins. */
  function RowOf(headers: seq<string>, cells: seq<string>): Row
    requires |cells| == |headers|
  {
    if headers == [] then map[]
    else
      var n := |headers| - 1;
      RowOf(headers[..n], cells[..n])[headers[n] := cells[n]]
  }

  /** Growing the header prefix by one adds that header's cell. */
  lemma RowOfSnoc(headers: seq<string>, cells: seq<string>, idx: nat)
    requires |cells| == |headers| && idx <= |headers|
    ensures idx < |headers| ==>
      RowOf(headers[..idx + 1], cells[..idx + 1]) == RowOf(headers[..idx], cells[..idx])[headers[idx] := cells[idx]]
    ensures RowOf(headers[..|headers|], cells[..|headers|]) == RowOf(headers, cells)
  {
    if idx < |headers| {
      assert headers[..idx + 1][..idx] == headers[..idx];
      assert cells[..idx + 1][..idx] == cells[..idx];
    }
    assert headers[..|headers|] == headers && cells[..|headers|] == cells;
  }

  /** The keys of a row are exactly the header names. */
  lemma {:induction false} RowOfKeys(headers: seq<string>, cells: seq<string>)
    requires |cells| == |headers|
    ensures forall h :: h in RowOf(headers, cells) <==> h in headers
  {
    if headers != [] {
      var n := |headers| - 1;
      RowOfKeys(headers[..n], cells[..n]);
      assert headers == headers[..n] + [headers[n]];
    }
  }

  /** The value under a header name is the cell of its last occurrence. */
  lemma {:induction false} RowOfValue(headers: seq<string>, cells: seq<string>, h: string)
    requires |cells| == |headers| && h in headers
    ensures h in RowOf(headers, cells) && RowOf(headers, cells)[h] == cells[LastIndex(headers, h)]
  {
    var n := |headers| - 1;
    if headers[n] != h {
      assert headers == headers[..n] + [headers[n]];
      RowOfValue(headers[..n], cells[..n], h);
    }
  }

  /** The row object of one data line. */
  function LineRow(headers: seq<string>, line: string): Row {
    RowOf(headers, Cells(Split(line, ','), |headers|))
  }

  /** Extending a slice by the next element; the slice up to the end is the suffix. */
  lemma SliceSnoc<T>(s: seq<T>, i: nat, j: nat)
    requires i <= j <= |s|
    ensures j < |s| ==> s[i..j] + [s[j]] == s[i..j + 1]
    ensures s[i..|s|] == s[i..]
  {
  }

  /** One row per data line, in order. */
  function DataRows(headers: seq<string>, data: seq<string>): (rows: seq<Row>)
    ensures |rows| == |data|
  {
    if data == [] then [] else [LineRow(headers, data[0])] + DataRows(headers, data[1..])
  }

  lemma {:induction false} DataRowAt(headers: seq<string>, data: seq<string>, k: nat)
    requires k < |data|
    ensures DataRows(headers, data)[k] == LineRow(headers, data[k])
  {
    if k > 0 {
      DataRowAt(headers, data[1..], k - 1);
    }
  }

  lemma {:induction false} DataRowsSnoc(headers: seq<string>, data: seq<string>, line: string)
    ensures DataRows(headers, data + [line]) == DataRows(headers, data) + [LineRow(headers, line)]
  {
    if data != [] {
      assert (data + [line])[1..] == data[1..] + [line];
      DataRowsSnoc(headers, data[1..], line);
    }
  }

  /** The rows of a list of non-blank lines: none without a line, else one per line
      after the header line. */
  function RowsOf(lines: seq<string>): (rows: seq<Row>)
    ensures |rows| == if lines == [] then 0 else |lines| - 1
  {
    if lines == [] then [] else DataRows(Headers(lines[0]), lines[1..])
  }

  /** What `parseCsv` returns. */
  function ParsedRows(text: string): seq<Row> {
    RowsOf(Lines(text))
  }

  lemma TrimmedAllSnoc(pieces: seq<string>, i: nat)
    requires i < |pieces|
    ensures TrimmedAll(pieces[..i + 1]) == TrimmedAll(pieces[..i]) + [Trim(pieces[i])]
  {
    var a := TrimmedAll(pieces[..i + 1]);
    var b := TrimmedAll(pieces[..i]) + [Trim(pieces[i])];
    assert |a| == |b|;
    forall k | 0 <= k < |a| ensures a[k] == b[k] {
      assert pieces[..i + 1][k] == pieces[k];
    }
  }

  lemma NonEmptySnoc(lines: seq<string>, l: string)
    ensures NonEmpty(lines + [l]) == if l != [] then NonEmpty(lines) + [l] else NonEmpty(lines)
  {
    assert (lines + [l])[..|lines|] == lines;
  }

  /** The first loop of `parseCsv`: split, trim, and keep the non-blank lines. */
  method NonBlankLines(text: string) returns (lines: seq<string>)
    ensures lines == Lines(text)
  {
    var pieces := SplitLines(text);
    lines := [];
    for i := 0 to |pieces|
      invariant lines == NonEmpty(TrimmedAll(pieces[..i]))
    {
      var l := Trim(pieces[i]);
      TrimmedAllSnoc(pieces, i);
      NonEmptySnoc(TrimmedAll(pieces[..i]), l);
      if |l| > 0 {
        lines := lines + [l];
      }
    }
    assert pieces[..|pieces|] == pieces;
  }

  /** The `forEach` over the headers for one data line. */
  method BuildRow(headers: seq<string>, line: string) returns (obj: Row)
    ensures obj == LineRow(headers, line)
  {
    var cols := Split(line, ',');
    ghost var cells := Cells(cols, |headers|);
    obj := map[];
    for idx := 0 to |headers|
      invariant obj == RowOf(headers[..idx], cells[..idx])
    {
      RowOfSnoc(headers, cells, idx);
      obj := obj[headers[idx] := Trim(ColAt(cols, idx))];
    }
    RowOfSnoc(headers, cells, |headers|);
  }

  /** The second loop of `parseCsv`: one row object per line after the header line. */
  method RowsFrom(lines: seq<string>) returns (rows: seq<Row>)
    ensures rows == RowsOf(lines)
  {
    if |lines| == 0 {
      return [];
    }
    var headers := Headers(lines[0]);
    rows := [];
    for i := 1 to |lines|
      invariant rows == DataRows(headers, lines[1..i])
    {
      var obj := BuildRow(headers, lines[i]);
      DataRowsSnoc(headers, lines[1..i], lines[i]);
      SliceSnoc(lines, 1, i);
      rows := rows + [obj];
    }
    SliceSnoc(lines, 1, |lines|);
  }

  /** `parseCsv(text)`. */
  method ParseCsv(text: string) returns (rows: seq<Row>)
    ensures rows == ParsedRows(text)
    ensures |rows| == if Lines(text) == [] then 0 else |Lines(text)| - 1
  {
    var lines := NonBlankLines(text);
    rows := RowsFrom(lines);
  }

  lemma RowAt(lines: seq<string>, k: int)
    requires 0 <= k < |RowsOf(lines)|
    ensures lines != [] && k + 1 < |lines|
    ensures RowsOf(lines)[k] == LineRow(Headers(lines[0]), lines[k + 1])
  {
    DataRowAt(Headers(lines[0]), lines[1..], k);
  }

  /** Every row has exactly the (trimmed) header names as keys. */
  lemma EveryRowHasTheHeaders(text: string, k: int)
    requires 0 <= k < |ParsedRows(text)|
    ensures forall h :: h in ParsedRows(text)[k] <==> h in Headers(Lines(text)[0])
  {
    var lines := Lines(text);
    var headers := Headers(lines[0]);
    var cells := Cells(Split(lines[k + 1], ','), |headers|);
    RowAt(lines, k);
    RowOfKeys(headers, cells);
  }

  /** Input with no non-blank line, the empty string included, parses to no rows. */
  lemma BlankInputHasNoRows(text: string)
    requires AllSpace(text)
    ensures ParsedRows(text) == []
  {
    BlankPiecesTrimAway(text);
    NoLinesFromBlankPieces(Split(text, '\n'));
  }

  lemma NoLinesFromBlankPieces(pieces: seq<string>)
    requires forall i :: 0 <= i < |pieces| ==> Trim(pieces[i]) == []
    ensures NonEmpty(TrimmedAll(StripCRs(pieces))) == []
  {
    StripCRsTrimAway(pieces);
    var trimmed := TrimmedAll(StripCRs(pieces));
    assert forall i :: 0 <= i < |trimmed| ==> trimmed[i] == [];
  }

  /** Every LF-separated piece of blank input trims to the empty string. */
  lemma BlankPiecesTrimAway(text: string)
    requires AllSpace(text)
    ensures forall i :: 0 <= i < |Split(text, '\n')| ==> Trim(Split(text, '\n')[i]) == []
  {
    var pieces := Split(text, '\n');
    forall i | 0 <= i < |pieces| ensures Trim(pieces[i]) == [] {
      forall k | 0 <= k < |pieces[i]| ensures IsSpace(pieces[i][k]) {
        JoinWithKeeps(pieces, ['\n'], i, k);
      }
      TrimEmptyIffAllSpace(pieces[i]);
    }
  }

  /** A cell never holds a comma: commas always separate cells, even inside quotes. */
  lemma CellsHoldNoComma(text: string, k: int, h: string)
    requires 0 <= k < |ParsedRows(text)| && h in ParsedRows(text)[k]
    ensures ',' !in ParsedRows(text)[k][h]
  {
    var lines := Lines(text);
    var headers := Headers(lines[0]);
    var cols := Split(lines[k + 1], ',');
    var cells := Cells(cols, |headers|);
    var row := RowOf(headers, cells);
    RowAt(lines, k);
    RowOfKeys(headers, cells);
    var idx := LastIndex(headers, h);
    RowOfValue(headers, cells, h);
    assert row[h] == Trim(ColAt(cols, idx));
    TrimKeepsAbsent(ColAt(cols, idx), ',');
  }

  /** The value under a header is the trimmed cell at the position of the header's
      last occurrence, or "" when the line has fewer cells than that. */
  lemma CellValue(text: string, k: int, h: string)
    requires 0 <= k < |ParsedRows(text)| && h in Headers(Lines(text)[0])
    ensures h in ParsedRows(text)[k]
    ensures ParsedRows(text)[k][h] ==
      Trim(ColAt(Split(Lines(text)[k + 1], ','), LastIndex(Headers(Lines(text)[0]), h)))
  {
    var lines := Lines(text);
    var headers := Headers(lines[0]);
    var cols := Split(lines[k + 1], ',');
    var cells := Cells(cols, |headers|);
    RowAt(lines, k);
    RowOfValue(headers, cells, h);
  }

  /** A header with no cell on a line (the line is short) gets the empty string. */
  lemma MissingColumnIsEmpty(text: string, k: int, h: string)
    requires 0 <= k < |ParsedRows(text)| && h in Headers(Lines(text)[0])
    requires LastIndex(Headers(Lines(text)[0]), h) >= |Split(Lines(text)[k + 1], ',')|
    ensures h in ParsedRows(text)[k] && ParsedRows(text)[k][h] == ""
  {
    CellValue(text, k, h);
  }

  /** The filter keeps exactly the non-empty lines. */
  lemma {:induction false} NonEmptyMembers(lines: seq<string>)
    ensures forall l :: l in NonEmpty(lines) <==> l in lines && l != []
  {
    if lines != [] {
      var init := lines[..|lines| - 1];
      NonEmptyMembers(init);
      assert lines == init + [lines[|lines| - 1]];
    }
  }
}
