/**
 * `parseCSV` (js/script.js:65-84): the text is cut into lines, blank lines are dropped, the
 * first line gives the header names (split on `,`, `;` or tab) and every further line is
 * scanned character by character into fields (split on `,` only, outside double quotes)
 * that are mapped onto the header names.
 */
module Csv {
  import opened Text

  datatype Result<T, E> = Ok(value: T) | Err(error: E)

  /** With no line left there is no header line to split, and the parse throws. */
  datatype CsvError = NoHeaderLine

  /** One parsed line: header name to trimmed field text. */
  type Record = map<string, string>

  // Lines

  /** Removes the `\r` of a `\r\n` line break: exactly one trailing `\r`, and nothing else. */
  function DropCR(l: string): (r: string)
    ensures l == r || l == r + ['\r']
    ensures r == l <==> l == [] || l[|l| - 1] != '\r'
  {
    if l != [] && l[|l| - 1] == '\r' then l[..|l| - 1] else l
  }

  /** The text cut at each line feed; a carriage return directly before a line feed goes with the break. */
  function SplitLines(csv: string): (r: seq<string>)
    ensures |r| >= 1
    ensures forall k :: 0 <= k < |r| ==> NoneOf(r[k], {'\n'})
  {
    var pieces := Split(csv, {'\n'});
    seq(|pieces|, i requires 0 <= i < |pieces| => if i < |pieces| - 1 then DropCR(pieces[i]) else pieces[i])
  }

  /** The lines that are not all white space, in order. */
  function NonBlank(lines: seq<string>): (r: seq<string>)
    ensures |r| <= |lines|
    ensures forall l :: l in r <==> l in lines && !IsBlank(l)
    ensures forall l :: multiset(r)[l] == if IsBlank(l) then 0 else multiset(lines)[l]
  {
    if lines == [] then []
    else
      var tail := NonBlank(lines[1..]);
      assert lines == [lines[0]] + lines[1..];
      assert forall l :: l in lines <==> l == lines[0] || l in lines[1..];
      if !IsBlank(lines[0]) then [lines[0]] + tail else tail
  }

  /** The kept lines are in their original order. */
  lemma {:induction false} NonBlankOrder(lines: seq<string>)
    ensures IsSubseq(NonBlank(lines), lines)
    decreases |lines|
  {
    if lines != [] {
      var tail := NonBlank(lines[1..]);
      NonBlankOrder(lines[1..]);
      if !IsBlank(lines[0]) {
        assert ([lines[0]] + tail)[1..] == tail;
      } else if tail != [] {
        assert tail[0] in tail;
      }
    }
  }

  /**
   * Text without `\r` is cut at every line feed and nothing else, and joining the lines
   * with line feeds gives the text back.
   */
  lemma SplitLinesWithoutCR(csv: string)
    requires NoneOf(csv, {'\r'})
    ensures SplitLines(csv) == Split(csv, {'\n'})
    ensures Join(SplitLines(csv), '\n') == csv
  {
    var pieces := Split(csv, {'\n'});
    PiecesOf(csv, {'\n'}, {'\r'});
    forall i | 0 <= i < |pieces| ensures DropCR(pieces[i]) == pieces[i] {
      assert NoneOf(pieces[i], {'\r'});
    }
    JoinSplit(csv, '\n');
  }

  /** The lines laid out with `\r\n` breaks: a `\r` after every line but the last, then `\n`. */
  function WithCR(lines: seq<string>): (r: seq<string>)
    ensures |r| == |lines|
    ensures forall i :: 0 <= i < |lines| - 1 ==> r[i] == lines[i] + ['\r']
    ensures |lines| > 0 ==> r[|lines| - 1] == lines[|lines| - 1]
  {
    seq(|lines|, i requires 0 <= i < |lines| => if i < |lines| - 1 then lines[i] + ['\r'] else lines[i])
  }

  /**
   * Text written with `\r\n` line breaks is cut back into its lines, whatever `\r` the
   * lines themselves hold: only the one before each `\n` goes with the break.
   */
  lemma SplitLinesCRLF(lines: seq<string>)
    requires |lines| >= 1
    requires forall k :: 0 <= k < |lines| ==> NoneOf(lines[k], {'\n'})
    ensures SplitLines(Join(WithCR(lines), '\n')) == lines
  {
    var parts := WithCR(lines);
    forall k | 0 <= k < |parts| ensures NoneOf(parts[k], {'\n'}) {
      if k < |lines| - 1 {
        assert parts[k] == lines[k] + ['\r'];
      }
    }
    SplitJoin(parts, '\n', {'\n'});
    var r := SplitLines(Join(parts, '\n'));
    forall k | 0 <= k < |lines| ensures r[k] == lines[k] {
      if k < |lines| - 1 {
        assert DropCR(parts[k]) == lines[k];
      }
    }
  }

  // The field scanner

  /**
   * The fields of `s` when the scan starts with the quote flag `inQ`: a double quote flips
   * the flag and is dropped, a comma outside quotes ends a field, every other character is
   * kept in the current field.
   */
  function FieldsFrom(s: string, inQ: bool): (r: seq<string>)
    ensures |r| >= 1
    ensures forall k :: 0 <= k < |r| ==> NoneOf(r[k], {'"'})
  {
    if s == [] then [""]
    else if s[0] == '"' then FieldsFrom(s[1..], !inQ)
    else
      var rest := FieldsFrom(s[1..], inQ);
      if s[0] == ',' && !inQ then [""] + rest
      else [[s[0]] + rest[0]] + rest[1..]
  }

  /** The fields of one data line. */
  function Fields(line: string): seq<string>
  {
    FieldsFrom(line, false)
  }

  /** `xs` followed by `ys`, the last field of `xs` and the first of `ys` run together. */
  function Glue(xs: seq<string>, ys: seq<string>): seq<string>
    requires |xs| >= 1 && |ys| >= 1
  {
    xs[..|xs| - 1] + [xs[|xs| - 1] + ys[0]] + ys[1..]
  }

  /**
   * The character loop of `parseCSV` for one line, with its `values`, `cur` and `inQ`
   * accumulators.
   */
  method SplitRow(line: string) returns (values: seq<string>)
    ensures values == Fields(line)
  {
    values := [];
    var cur := "";
    var inQ := false;
    var i := 0;
    assert line[0..] == line;
    ghost var all := Fields(line);
    assert all == [all[0]] + all[1..] && "" + all[0] == all[0];
    assert values + [cur + all[0]] + all[1..] == all;
    while i < |line|
      invariant 0 <= i <= |line|
      invariant values + [cur + FieldsFrom(line[i..], inQ)[0]] + FieldsFrom(line[i..], inQ)[1..] == Fields(line)
    {
      var ch := line[i];
      ghost var rest := FieldsFrom(line[i + 1..], inQ);
      assert line[i..][1..] == line[i + 1..];
      if ch == '"' {
        inQ := !inQ;
      } else if ch == ',' && !inQ {
        ghost var f := [""] + rest;
        assert FieldsFrom(line[i..], inQ) == f;
        assert f[0] == "" && f[1..] == rest && rest == [rest[0]] + rest[1..];
        assert cur + "" == cur && "" + rest[0] == rest[0];
        values := values + [cur];
        cur := "";
      } else {
        ghost var f := [[ch] + rest[0]] + rest[1..];
        assert FieldsFrom(line[i..], inQ) == f;
        assert f[0] == [ch] + rest[0] && f[1..] == rest[1..];
        assert cur + ([ch] + rest[0]) == (cur + [ch]) + rest[0];
        cur := cur + [ch];
      }
      i := i + 1;
    }
    assert line[i..] == [];
    assert FieldsFrom(line[i..], inQ) == [""];
    assert cur + "" == cur && [""][1..] == [];
    values := values + [cur];
  }

  /** Laid end to end with commas, the fields give back the line without its double quotes. */
  lemma {:induction false} FieldsJoin(s: string, inQ: bool)
    ensures Join(FieldsFrom(s, inQ), ',') == Without(s, {'"'})
    decreases |s|
  {
    if s != [] {
      var rest := FieldsFrom(s[1..], inQ);
      if s[0] == '"' {
        FieldsJoin(s[1..], !inQ);
      } else {
        FieldsJoin(s[1..], inQ);
        if s[0] == ',' && !inQ {
          assert ([""] + rest)[1..] == rest;
        } else {
          JoinConsChar(s[0], rest, ',');
        }
      }
    }
  }

  /** Without double quotes in the line, the scanner is a plain split on commas. */
  lemma {:induction false} FieldsWithoutQuotes(s: string)
    requires NoneOf(s, {'"'})
    ensures Fields(s) == Split(s, {','})
    decreases |s|
  {
    if s != [] {
      FieldsWithoutQuotes(s[1..]);
    }
  }

  /** Inside quotes nothing splits. */
  lemma {:induction false} FieldsInsideQuotes(s: string)
    requires NoneOf(s, {'"'})
    ensures FieldsFrom(s, true) == [s]
    decreases |s|
  {
    if s != [] {
      FieldsInsideQuotes(s[1..]);
      assert s == [s[0]] + s[1..];
    }
  }

  lemma GlueCons(a: string, xs: seq<string>, ys: seq<string>)
    requires |xs| >= 1 && |ys| >= 1
    ensures Glue([a] + xs, ys) == [a] + Glue(xs, ys)
  {
    var n := |xs| - 1;
    assert ([a] + xs)[..n + 1] == [a] + xs[..n];
  }

  lemma GlueFirst(c: char, xs: seq<string>, ys: seq<string>)
    requires |xs| >= 1 && |ys| >= 1
    ensures Glue([[c] + xs[0]] + xs[1..], ys) == [[c] + Glue(xs, ys)[0]] + Glue(xs, ys)[1..]
  {
    var r := Glue(xs, ys);
    var hd := [[c] + xs[0]] + xs[1..];
    var n := |xs| - 1;
    if n == 0 {
      assert r == [xs[0] + ys[0]] + ys[1..];
      assert hd[..|hd| - 1] == [] && hd[|hd| - 1] == [c] + xs[0];
      assert [c] + (xs[0] + ys[0]) == ([c] + xs[0]) + ys[0];
    } else {
      assert r[0] == xs[0] && r[1..] == xs[1..n] + [xs[n] + ys[0]] + ys[1..];
      assert hd[..|hd| - 1] == [[c] + xs[0]] + xs[1..n] && hd[|hd| - 1] == xs[n];
    }
  }

  /** A quote-free prefix is scanned on its own, its last field continuing into what follows. */
  lemma {:induction false} FieldsAppend(x: string, y: string, inQ: bool)
    requires NoneOf(x, {'"'})
    ensures FieldsFrom(x + y, inQ) == Glue(FieldsFrom(x, inQ), FieldsFrom(y, inQ))
    decreases |x|
  {
    var ys := FieldsFrom(y, inQ);
    if x == [] {
      assert x + y == y;
      assert Glue([""], ys) == ys by {
        assert [""][..0] == [] && "" + ys[0] == ys[0];
        assert ys == [ys[0]] + ys[1..];
      }
    } else {
      var s := x + y;
      assert s[0] == x[0] && s[1..] == x[1..] + y;
      assert x[0] != '"';
      FieldsAppend(x[1..], y, inQ);
      var xs := FieldsFrom(x[1..], inQ);
      var r := FieldsFrom(s[1..], inQ);
      assert r == Glue(xs, ys);
      if x[0] == ',' && !inQ {
        assert FieldsFrom(s, inQ) == [""] + r;
        assert FieldsFrom(x, inQ) == [""] + xs;
        GlueCons("", xs, ys);
      } else {
        assert FieldsFrom(s, inQ) == [[x[0]] + r[0]] + r[1..];
        assert FieldsFrom(x, inQ) == [[x[0]] + xs[0]] + xs[1..];
        GlueFirst(x[0], xs, ys);
      }
    }
  }

  /**
   * A comma inside double quotes does not split a field: in `a"b"c` the text `b` lands,
   * commas and all, in the field that the last field of `a` opens and that the first
   * field of `c` closes.
   */
  lemma QuotedSegmentOneField(a: string, b: string, c: string)
    requires NoneOf(a, {'"'}) && NoneOf(b, {'"'}) && NoneOf(c, {'"'})
    ensures Fields(a + "\"" + b + "\"" + c) == Glue(Fields(a), Glue([b], Fields(c)))
  {
    var tail := "\"" + b + "\"" + c;
    assert a + "\"" + b + "\"" + c == a + tail;
    FieldsAppend(a, tail, false);
    assert tail[1..] == b + ("\"" + c);
    FieldsAppend(b, "\"" + c, true);
    FieldsInsideQuotes(b);
    assert ("\"" + c)[1..] == c;
  }

  // Records

  /**
   * Removes one leading and one trailing double quote. The field scanner has already dropped
   * every double quote, so only quote-free text reaches it, and the contract covers that case.
   */
  function StripQuotes(s: string): (r: string)
    ensures NoneOf(s, {'"'}) ==> r == s
  {
    var s1 := if s != [] && s[0] == '"' then s[1..] else s;
    if s1 != [] && s1[|s1| - 1] == '"' then s1[..|s1| - 1] else s1
  }

  /**
   * The text of column `i`: the field trimmed, with one surrounding double quote removed at
   * each end; empty past the last field.
   */
  function Cell(values: seq<string>, i: nat): (r: string)
    ensures i >= |values| ==> r == ""
    ensures i < |values| && NoneOf(values[i], {'"'}) ==> r == Trim(values[i])
  {
    var v := if i < |values| then values[i] else "";
    TrimNoneOf(v, {'"'});
    StripQuotes(Trim(v))
  }

  /** Each header name mapped to the cell of its column; a later duplicate header overwrites an earlier one. */
  function Assign(headers: seq<string>, cells: seq<string>): (r: Record)
    requires |cells| == |headers|
    ensures forall h :: h in r <==> h in headers
  {
    if headers == [] then map[]
    else
      var n := |headers| - 1;
      assert forall h :: h in headers <==> h in headers[..n] || h == headers[n];
      Assign(headers[..n], cells[..n])[headers[n] := cells[n]]
  }

  /** The value under a header name is the cell of the last column with that name. */
  lemma {:induction false} AssignLast(headers: seq<string>, cells: seq<string>, i: nat)
    requires |cells| == |headers|
    requires i < |headers| && forall j :: i < j < |headers| ==> headers[j] != headers[i]
    ensures Assign(headers, cells)[headers[i]] == cells[i]
    decreases |headers|
  {
    var n := |headers| - 1;
    if i < n {
      AssignLast(headers[..n], cells[..n], i);
    }
  }

  /** Every value of a record is the cell of some column. */
  lemma {:induction false} AssignValue(headers: seq<string>, cells: seq<string>, h: string)
    requires |cells| == |headers|
    requires h in Assign(headers, cells)
    ensures exists i :: 0 <= i < |headers| && Assign(headers, cells)[h] == cells[i]
    decreases |headers|
  {
    var n := |headers| - 1;
    if h != headers[n] {
      AssignValue(headers[..n], cells[..n], h);
      var i :| 0 <= i < n && Assign(headers[..n], cells[..n])[h] == cells[..n][i];
      assert Assign(headers, cells)[h] == cells[i];
    }
  }

  /** The cells of one line, one per header column. */
  function Cells(headers: seq<string>, values: seq<string>): (r: seq<string>)
    ensures |r| == |headers|
    ensures forall i :: 0 <= i < |r| ==> r[i] == Cell(values, i)
  {
    seq(|headers|, i requires 0 <= i < |headers| => Cell(values, i))
  }

  /** The object `parseCSV` builds for one line. */
  function ToRecord(headers: seq<string>, values: seq<string>): (r: Record)
    ensures forall h :: h in r <==> h in headers
  {
    Assign(headers, Cells(headers, values))
  }

  /** The characters that separate header names. */
  const HeaderSeps: set<char> := {',', ';', '\t'}

  /** The header line cut at every separator, each piece trimmed. */
  function HeaderNames(line: string): (r: seq<string>)
    ensures |r| == |Split(line, HeaderSeps)|
    ensures forall k :: 0 <= k < |r| ==> Trimmed(r[k]) && NoneOf(r[k], HeaderSeps)
  {
    var parts := Split(line, HeaderSeps);
    TrimmedPieces(parts, HeaderSeps)
  }

  /** Each piece trimmed; pieces free of `cs` stay free of them. */
  function TrimmedPieces(parts: seq<string>, cs: set<char>): (r: seq<string>)
    requires forall k :: 0 <= k < |parts| ==> NoneOf(parts[k], cs)
    ensures |r| == |parts|
    ensures forall k :: 0 <= k < |r| ==> r[k] == Trim(parts[k]) && Trimmed(r[k]) && NoneOf(r[k], cs)
  {
    if parts == [] then []
    else
      TrimNoneOf(parts[0], cs);
      [Trim(parts[0])] + TrimmedPieces(parts[1..], cs)
  }

  /**
   * Header names free of separators and of surrounding white space, joined by any one of
   * the separators, read back unchanged.
   */
  lemma HeaderNamesJoin(names: seq<string>, sep: char)
    requires |names| >= 1 && sep in HeaderSeps
    requires forall k :: 0 <= k < |names| ==> Trimmed(names[k]) && NoneOf(names[k], HeaderSeps)
    ensures HeaderNames(Join(names, sep)) == names
  {
    SplitJoin(names, sep, HeaderSeps);
    forall k | 0 <= k < |names| ensures Trim(names[k]) == names[k] {
      assert TrimStart(names[k]) == names[k];
      assert TrimEnd(names[k]) == names[k];
    }
  }

  /** One record per data line, in order. */
  function RecordsOf(headers: seq<string>, rows: seq<string>): (r: seq<Record>)
    ensures |r| == |rows|
  {
    if rows == [] then []
    else RecordsOf(headers, rows[..|rows| - 1]) + [ToRecord(headers, Fields(rows[|rows| - 1]))]
  }

  /** Record `k` comes from data line `k`. */
  lemma {:induction false} RecordsOfEach(headers: seq<string>, rows: seq<string>)
    ensures forall k :: 0 <= k < |rows| ==> RecordsOf(headers, rows)[k] == ToRecord(headers, Fields(rows[k]))
    decreases |rows|
  {
    if rows != [] {
      var n := |rows| - 1;
      var init := RecordsOf(headers, rows[..n]);
      RecordsOfEach(headers, rows[..n]);
      forall k | 0 <= k < |rows|
        ensures RecordsOf(headers, rows)[k] == ToRecord(headers, Fields(rows[k]))
      {
        if k < n {
          assert rows[..n][k] == rows[k];
          assert RecordsOf(headers, rows)[k] == init[k];
        }
      }
    }
  }

  lemma RecordsOfSnoc(headers: seq<string>, rows: seq<string>, k: nat)
    requires k < |rows|
    ensures RecordsOf(headers, rows[..k + 1]) == RecordsOf(headers, rows[..k]) + [ToRecord(headers, Fields(rows[k]))]
  {
    assert rows[..k + 1][..k] == rows[..k];
  }

  /** What `parseCSV` returns, or the failure when no non-blank line is left for the header. */
  function ParsedCsv(csv: string): (r: Result<seq<Record>, CsvError>)
    ensures r.Ok? ==> |r.value| == |NonBlank(SplitLines(csv))| - 1
    ensures r.Ok? ==> forall k :: 0 <= k < |r.value| ==>
      r.value[k] == ToRecord(HeaderNames(NonBlank(SplitLines(csv))[0]), Fields(NonBlank(SplitLines(csv))[k + 1]))
  {
    var lines := NonBlank(SplitLines(csv));
    if lines == [] then Err(NoHeaderLine)
    else
      RecordsOfEach(HeaderNames(lines[0]), lines[1..]);
      Ok(RecordsOf(HeaderNames(lines[0]), lines[1..]))
  }

  /** `parseCSV`: one record per non-blank line after the header line. */
  method ParseCsv(csv: string) returns (res: Result<seq<Record>, CsvError>)
    ensures res == ParsedCsv(csv)
  {
    var lines := NonBlank(SplitLines(csv));
    if |lines| == 0 {
      return Err(NoHeaderLine);
    }
    var headers := HeaderNames(lines[0]);
    var rows := lines[1..];
    var records: seq<Record> := [];
    var k := 0;
    while k < |rows|
      invariant 0 <= k <= |rows|
      invariant records == RecordsOf(headers, rows[..k])
    {
      var values := SplitRow(rows[k]);
      RecordsOfSnoc(headers, rows, k);
      records := records + [ToRecord(headers, values)];
      k := k + 1;
    }
    assert rows[..k] == rows;
    res := Ok(records);
  }

  lemma NoneOfSlice(s: string, cs: set<char>, i: nat, j: nat)
    requires NoneOf(s, cs) && i <= j <= |s|
    ensures NoneOf(s[i..j], cs)
  {
    assert forall k :: 0 <= k < j - i ==> s[i..j][k] == s[i + k];
  }

  /** A cell cut from quote-free text is trimmed and holds no double quote. */
  lemma CellOfFields(values: seq<string>, i: nat)
    requires forall k :: 0 <= k < |values| ==> NoneOf(values[k], {'"'})
    ensures Trimmed(Cell(values, i)) && NoneOf(Cell(values, i), {'"'})
  {
    var v := if i < |values| then values[i] else "";
    var a, b := TrimSlice(v);
    NoneOfSlice(v, {'"'}, a, b);
  }

  lemma CellOfLine(line: string, i: nat)
    ensures Cell(Fields(line), i) == (if i < |Fields(line)| then Trim(Fields(line)[i]) else "")
    ensures Trimmed(Cell(Fields(line), i)) && NoneOf(Cell(Fields(line), i), {'"'})
  {
    var values := Fields(line);
    CellOfFields(values, i);
    var v := if i < |values| then values[i] else "";
    var a, b := TrimSlice(v);
    NoneOfSlice(v, {'"'}, a, b);
  }

  /**
   * Every record of `parseCSV` has exactly the header names as keys; the value under a
   * name is the trimmed field in that name's last column, `''` when the line is short.
   */
  lemma RecordShape(headers: seq<string>, line: string)
    ensures forall h :: h in ToRecord(headers, Fields(line)) <==> h in headers
    ensures forall i :: 0 <= i < |headers| && (forall j :: i < j < |headers| ==> headers[j] != headers[i]) ==>
      ToRecord(headers, Fields(line))[headers[i]] == (if i < |Fields(line)| then Trim(Fields(line)[i]) else "")
  {
    forall i | 0 <= i < |headers| && (forall j :: i < j < |headers| ==> headers[j] != headers[i])
      ensures ToRecord(headers, Fields(line))[headers[i]] == (if i < |Fields(line)| then Trim(Fields(line)[i]) else "")
    {
      RecordValue(headers, line, i);
    }
  }

  /** The value under a header not repeated later is the trimmed field in its column. */
  lemma RecordValue(headers: seq<string>, line: string, i: nat)
    requires i < |headers| && forall j :: i < j < |headers| ==> headers[j] != headers[i]
    ensures ToRecord(headers, Fields(line))[headers[i]] == (if i < |Fields(line)| then Trim(Fields(line)[i]) else "")
  {
    var values := Fields(line);
    var cells := Cells(headers, values);
    AssignLast(headers, cells, i);
    assert cells[i] == Cell(values, i);
    CellOfLine(line, i);
  }

  /** No value of a `parseCSV` record holds a double quote or starts or ends with white space. */
  lemma RecordValuesClean(headers: seq<string>, line: string)
    ensures forall h :: h in ToRecord(headers, Fields(line)) ==>
      Trimmed(ToRecord(headers, Fields(line))[h]) && NoneOf(ToRecord(headers, Fields(line))[h], {'"'})
  {
    var values := Fields(line);
    var r := ToRecord(headers, values);
    forall h | h in r
      ensures Trimmed(r[h]) && NoneOf(r[h], {'"'})
    {
      AssignValue(headers, Cells(headers, values), h);
      var i :| 0 <= i < |headers| && r[h] == Cells(headers, values)[i];
      CellOfLine(line, i);
    }
  }

  /**
   * `parseCSV` fails only when every line is blank; otherwise it yields one record per
   * non-blank line after the header line.
   */
  lemma ParsedCsvCount(csv: string)
    ensures ParsedCsv(csv).Err? <==> forall k :: 0 <= k < |SplitLines(csv)| ==> IsBlank(SplitLines(csv)[k])
    ensures ParsedCsv(csv).Ok? ==> |ParsedCsv(csv).value| == |NonBlank(SplitLines(csv))| - 1
  {
    var lines := SplitLines(csv);
    if NonBlank(lines) == [] {
      assert forall k :: 0 <= k < |lines| ==> IsBlank(lines[k]);
    } else {
      var l := NonBlank(lines)[0];
      assert !IsBlank(l) && l in lines;
    }
  }

  /**
   * Data lines are split on commas only, although the header line is also split on `;` and
   * tab: a line with neither comma nor double quote (a `;`- or tab-separated row, say) is a
   * single field, so its whole trimmed text goes to the first header and every other header
   * gets `''`.
   */
  lemma RowWithoutCommas(headers: seq<string>, line: string)
    requires NoneOf(line, {',', '"'})
    requires forall i, j :: 0 <= i < j < |headers| ==> headers[i] != headers[j]
    ensures forall i :: 0 <= i < |headers| ==>
      ToRecord(headers, Fields(line))[headers[i]] == (if i == 0 then Trim(line) else "")
  {
    FieldsWithoutQuotes(line);
    SplitNoSeparator(line, {','});
    assert Fields(line) == [line];
    RecordShape(headers, line);
  }
}
