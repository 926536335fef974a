/** `parse_csv`: the CSV text is stripped of surrounding whitespace and split
    into lines on '\n'; the first line, split on ',' and each name stripped,
    is the header; every later line with exactly as many ',' cells as the
    header adds, for each cell that parses as a number, that number to its
    column. Conversion of a cell to a number (`float`) is the parameter
    `parseFloat`, None where Python raises ValueError. */
module Csv {
  import opened Outcomes

  const TooShortMessage: string := "CSV must have at least header and one data row"

  // ---------------------------------------------------------------------
  // str.strip()
  // ---------------------------------------------------------------------

  /** The characters Python's str.strip() removes (str.isspace): the
      blank, tab and line breaks among them, never the cell separator ','
      nor a character of a decimal number. */
  predicate IsSpace(c: char)
    ensures (c == ' ' || c == '\t' || c == '\n' || c == '\r') ==> IsSpace(c)
    ensures IsSpace(c) ==> c != ',' && c != '.' && c != '-' && !('0' <= c <= '9')
  {
    '\t' <= c <= '\r' || '\U{1c}' <= c <= ' ' || c == '\U{85}' || c == '\U{a0}' ||
    c == '\U{1680}' || '\U{2000}' <= c <= '\U{200a}' || c == '\U{2028}' || c == '\U{2029}' ||
    c == '\U{202f}' || c == '\U{205f}' || c == '\U{3000}'
  }

  predicate AllSpace(s: string)
  {
    forall i :: 0 <= i < |s| ==> IsSpace(s[i])
  }

  /** s without its leading whitespace: no longer than s and not starting
      with whitespace. */
  function StripLeft(s: string): (t: string)
    ensures |t| <= |s|
    ensures t == [] || !IsSpace(t[0])
  {
    if |s| > 0 && IsSpace(s[0]) then StripLeft(s[1..]) else s
  }

  /** s without its trailing whitespace: no longer than s and not ending
      with whitespace. */
  function StripRight(s: string): (t: string)
    ensures |t| <= |s|
    ensures t == [] || !IsSpace(t[|t| - 1])
  {
    if |s| > 0 && IsSpace(s[|s| - 1]) then StripRight(s[..|s| - 1]) else s
  }

  /** What StripLeft removes is a whitespace prefix: the result is the rest of s. */
  lemma {:induction false} StripLeftDropsSpace(s: string)
    ensures StripLeft(s) == s[|s| - |StripLeft(s)|..]
    ensures AllSpace(s[..|s| - |StripLeft(s)|])
  {
    if |s| > 0 && IsSpace(s[0]) {
      StripLeftDropsSpace(s[1..]);
      var k := |s| - |StripLeft(s)|;
      assert s[..k] == [s[0]] + s[1..][..k - 1];
    }
  }

  /** What StripRight removes is a whitespace suffix: the result is the start of s. */
  lemma {:induction false} StripRightDropsSpace(s: string)
    ensures StripRight(s) == s[..|StripRight(s)|]
    ensures AllSpace(s[|StripRight(s)|..])
  {
    if |s| > 0 && IsSpace(s[|s| - 1]) {
      StripRightDropsSpace(s[..|s| - 1]);
      var k := |StripRight(s)|;
      assert s[k..] == s[..|s| - 1][k..] + [s[|s| - 1]];
    }
  }

  /** str.strip(): neither end of the result is whitespace. */
  function Strip(s: string): (t: string)
    ensures t == [] || (!IsSpace(t[0]) && !IsSpace(t[|t| - 1]))
  {
    var l := StripLeft(s);
    StripRightDropsSpace(l);
    StripRight(l)
  }

  /** What strip() removes is whitespace at the two ends and nothing else:
      the result is a contiguous piece of s with only whitespace around it. */
  lemma StripKeepsInterior(s: string)
    ensures exists i, j :: 0 <= i <= j <= |s| && Strip(s) == s[i..j] && AllSpace(s[..i]) && AllSpace(s[j..])
  {
    var l := StripLeft(s);
    var t := StripRight(l);
    StripLeftDropsSpace(s);
    StripRightDropsSpace(l);
    var i := |s| - |l|;
    var j := i + |t|;
    assert s[i..j] == l[..|t|];
    assert s[j..] == l[|t|..];
  }

  lemma StripIdempotent(s: string)
    ensures Strip(Strip(s)) == Strip(s)
  {
  }

  // ---------------------------------------------------------------------
  // str.split(sep) with a one-character separator, and its inverse
  // ---------------------------------------------------------------------

  /** str.split(sep): the maximal pieces between separators, "" included;
      a string with k separators has k + 1 pieces. */
  function Split(s: string, sep: char): (parts: seq<string>)
    ensures |parts| >= 1
  {
    if |s| == 0 then [""]
    else
      var rest := Split(s[1..], sep);
      if s[0] == sep then [""] + rest else [[s[0]] + rest[0]] + rest[1..]
  }

  /** sep.join(parts): it starts with the first piece and holds at least
      one separator between consecutive pieces. */
  function Join(parts: seq<string>, sep: char): (s: string)
    requires |parts| >= 1
    ensures parts[0] <= s
    ensures |s| >= |parts| - 1
  {
    if |parts| == 1 then parts[0] else parts[0] + [sep] + Join(parts[1..], sep)
  }

  /** Joining separator-free pieces puts exactly one separator between
      consecutive pieces: |parts| - 1 in all. */
  lemma {:induction false} JoinSeparatorCount(parts: seq<string>, sep: char)
    requires |parts| >= 1
    requires forall i :: 0 <= i < |parts| ==> sep !in parts[i]
    ensures multiset(Join(parts, sep))[sep] == |parts| - 1
  {
    if |parts| > 1 {
      JoinSeparatorCount(parts[1..], sep);
      assert sep !in parts[0];
    }
  }

  /** Joining the pieces back with the separator gives the original string. */
  lemma {:induction false} JoinSplit(s: string, sep: char)
    ensures Join(Split(s, sep), sep) == s
  {
    if |s| > 0 {
      JoinSplit(s[1..], sep);
      var rest := Split(s[1..], sep);
      if s[0] != sep && |rest| > 1 {
        assert ([[s[0]] + rest[0]] + rest[1..])[1..] == rest[1..];
      }
    }
  }

  /** No piece contains the separator. */
  lemma {:induction false} SplitPartsFree(s: string, sep: char)
    ensures forall k :: 0 <= k < |Split(s, sep)| ==> sep !in Split(s, sep)[k]
  {
    if |s| > 0 {
      SplitPartsFree(s[1..], sep);
    }
  }

  /** The number of pieces is one more than the number of separators. */
  lemma {:induction false} SplitCount(s: string, sep: char)
    ensures |Split(s, sep)| == multiset(s)[sep] + 1
  {
    if |s| > 0 {
      SplitCount(s[1..], sep);
      assert s == [s[0]] + s[1..];
    }
  }

  lemma {:induction false} SplitSeparatorFree(p: string, sep: char)
    requires sep !in p
    ensures Split(p, sep) == [p]
  {
    if |p| > 0 {
      SplitSeparatorFree(p[1..], sep);
      assert [p[0]] + p[1..] == p;
    }
  }

  lemma {:induction false} SplitAfterPiece(p: string, sep: char, t: string)
    requires sep !in p
    ensures Split(p + [sep] + t, sep) == [p] + Split(t, sep)
  {
    if |p| == 0 {
      assert p + [sep] + t == [sep] + t;
      assert ([sep] + t)[1..] == t;
    } else {
      var s := p + [sep] + t;
      assert s[1..] == p[1..] + [sep] + t;
      SplitAfterPiece(p[1..], sep, t);
      assert [p[0]] + p[1..] == p;
    }
  }

  /** Splitting the join of separator-free pieces gives the pieces back. */
  lemma {:induction false} SplitJoin(parts: seq<string>, sep: char)
    requires |parts| >= 1
    requires forall k :: 0 <= k < |parts| ==> sep !in parts[k]
    ensures Split(Join(parts, sep), sep) == parts
  {
    if |parts| == 1 {
      SplitSeparatorFree(parts[0], sep);
    } else {
      SplitJoin(parts[1..], sep);
      SplitAfterPiece(parts[0], sep, Join(parts[1..], sep));
      assert [parts[0]] + parts[1..] == parts;
    }
  }

  // ---------------------------------------------------------------------
  // What parse_csv computes, stated row by row
  // ---------------------------------------------------------------------

  /** The lines of the stripped text. */
  function Lines(content: string): (lines: seq<string>)
    ensures |lines| >= 1
  {
    Split(Strip(content), '\n')
  }

  /** The header read from the first line: its ',' cells, each stripped. */
  function Header(firstLine: string): (header: seq<string>)
    ensures |header| == |Split(firstLine, ',')|
  {
    var cells := Split(firstLine, ',');
    seq(|cells|, i requires 0 <= i < |cells| => Strip(cells[i]))
  }

  /** The values among the first j cells of a row that belong to column
      name: each cell under a header equal to name that parses as a number. */
  function CellsFor(header: seq<string>, cells: seq<string>, name: string,
                    parseFloat: string -> Option<real>, j: nat): (vals: seq<real>)
    requires j <= |header| && j <= |cells|
    ensures |vals| <= j
  {
    if j == 0 then []
    else
      var parsed := parseFloat(Strip(cells[j - 1]));
      CellsFor(header, cells, name, parseFloat, j - 1) +
      (if header[j - 1] == name && parsed.Some? then [parsed.value] else [])
  }

  /** The values one data line adds to column name: none when its cell
      count differs from the header's. */
  function RowContribution(header: seq<string>, line: string, name: string,
                           parseFloat: string -> Option<real>): (vals: seq<real>)
    ensures |vals| <= |header|
  {
    var cells := Split(line, ',');
    if |cells| != |header| then [] else CellsFor(header, cells, name, parseFloat, |header|)
  }

  /** f applied to every line, the results concatenated in line order. */
  function FlatMap(rows: seq<string>, f: string -> seq<real>): seq<real>
  {
    if rows == [] then [] else FlatMap(rows[..|rows| - 1], f) + f(rows[|rows| - 1])
  }

  /** Column name over the data lines rows: the rows' contributions in order. */
  function Column(header: seq<string>, rows: seq<string>, name: string,
                  parseFloat: string -> Option<real>): (vals: seq<real>)
    ensures (forall k :: 0 <= k < |header| ==> header[k] != name) ==> vals == []
  {
    AbsentNameCollectsNothing(header, rows, name, parseFloat);
    FlatMap(rows, line => RowContribution(header, line, name, parseFloat))
  }

  /** No data line adds anything under a name the header does not have. */
  lemma {:induction false} AbsentNameCollectsNothing(header: seq<string>, rows: seq<string>, name: string,
                                                     parseFloat: string -> Option<real>)
    ensures (forall k :: 0 <= k < |header| ==> header[k] != name) ==>
      FlatMap(rows, line => RowContribution(header, line, name, parseFloat)) == []
  {
    if (forall k :: 0 <= k < |header| ==> header[k] != name) && rows != [] {
      var m := |rows| - 1;
      AbsentNameCollectsNothing(header, rows[..m], name, parseFloat);
      RowContributionCount(header, rows[m], name, parseFloat);
      assert name !in header;
    }
  }

  /** The inner loop of parse_csv over one well-formed data line: for each
      (header name, cell) pair in order, append the cell's number to that
      column when it parses, and skip it otherwise. */
  method AppendRow(data: map<string, seq<real>>, header: seq<string>, values: seq<string>,
                   parseFloat: string -> Option<real>)
    returns (data': map<string, seq<real>>)
    requires |values| == |header|
    requires forall j :: 0 <= j < |header| ==> header[j] in data
    ensures data'.Keys == data.Keys
    ensures forall name :: name in data ==>
      data'[name] == data[name] + CellsFor(header, values, name, parseFloat, |header|)
  {
    data' := data;
    for j := 0 to |header|
      invariant data'.Keys == data.Keys
      invariant forall name :: name in data ==>
        data'[name] == data[name] + CellsFor(header, values, name, parseFloat, j)
    {
      var col := header[j];
      var parsed := parseFloat(Strip(values[j]));
      if parsed.Some? {
        data' := data'[col := data'[col] + [parsed.value]];
      }
    }
  }

  /** The data-row loop of parse_csv: every header name starts with an
      empty column; lines of the wrong width are skipped, the others
      appended cell by cell. */
  method ParseRows(header: seq<string>, rows: seq<string>, parseFloat: string -> Option<real>)
    returns (data: map<string, seq<real>>)
    ensures data.Keys == set name | name in header
    ensures forall name :: name in data ==> data[name] == Column(header, rows, name, parseFloat)
  {
    data := map col | col in header :: [];
    for m := 0 to |rows|
      invariant data.Keys == set name | name in header
      invariant forall name :: name in data ==> data[name] == Column(header, rows[..m], name, parseFloat)
    {
      assert rows[..m + 1][..m] == rows[..m];
      var values := Split(rows[m], ',');
      if |values| != |header| {
        continue;
      }
      data := AppendRow(data, header, values, parseFloat);
    }
    assert rows[..|rows|] == rows;
  }

  /** parse_csv. It raises ValueError exactly when the stripped text holds
      no line break (fewer than two lines); otherwise the columns are the
      distinct header names, each holding its column of the data lines. */
  method ParseCsv(content: string, parseFloat: string -> Option<real>)
    returns (r: Result<map<string, seq<real>>>)
    ensures r.Failure? <==> '\n' !in Strip(content)
    ensures r.Failure? ==> r.error == ValueError(TooShortMessage)
    ensures r.Success? ==> r.value.Keys == set name | name in Header(Lines(content)[0])
    ensures r.Success? ==> forall name :: name in r.value ==>
      r.value[name] == Column(Header(Lines(content)[0]), Lines(content)[1..], name, parseFloat)
  {
    var lines := Split(Strip(content), '\n');
    SplitCount(Strip(content), '\n');
    if |lines| < 2 {
      return Failure(ValueError(TooShortMessage));
    }
    var header := Header(lines[0]);
    var data := ParseRows(header, lines[1..], parseFloat);
    r := Success(data);
  }

  // ---------------------------------------------------------------------
  // Properties of the columns
  // ---------------------------------------------------------------------

  lemma {:induction false} FlatMapAppend(a: seq<string>, b: seq<string>, f: string -> seq<real>)
    ensures FlatMap(a + b, f) == FlatMap(a, f) + FlatMap(b, f)
  {
    if b != [] {
      var front := b[..|b| - 1];
      FlatMapAppend(a, front, f);
      assert (a + b)[..|a + b| - 1] == a + front;
    } else {
      assert a + b == a;
    }
  }

  lemma {:induction false} FlatMapLength(rows: seq<string>, f: string -> seq<real>, k: nat)
    requires forall i :: 0 <= i < |rows| ==> |f(rows[i])| <= k
    ensures |FlatMap(rows, f)| <= k * |rows|
    ensures (forall i :: 0 <= i < |rows| ==> |f(rows[i])| == k) ==> |FlatMap(rows, f)| == k * |rows|
  {
    if rows != [] {
      var m := |rows| - 1;
      assert forall i :: 0 <= i < m ==> rows[..m][i] == rows[i];
      FlatMapLength(rows[..m], f, k);
      MultiplySuccessor(k, m);
    }
  }

  /** Rows are read in order: the column of rows a + b is a's column followed by b's. */
  lemma ColumnAppend(header: seq<string>, a: seq<string>, b: seq<string>, name: string,
                     parseFloat: string -> Option<real>)
    ensures Column(header, a + b, name, parseFloat) ==
            Column(header, a, name, parseFloat) + Column(header, b, name, parseFloat)
  {
    FlatMapAppend(a, b, line => RowContribution(header, line, name, parseFloat));
  }

  /** A row contributes at most one value per header cell named name, and
      exactly that many when every one of its cells parses. */
  lemma {:induction false} CellsForCount(header: seq<string>, cells: seq<string>, name: string,
                                         parseFloat: string -> Option<real>, j: nat)
    requires j <= |header| && j <= |cells|
    ensures |CellsFor(header, cells, name, parseFloat, j)| <= multiset(header[..j])[name]
    ensures (forall k :: 0 <= k < j ==> parseFloat(Strip(cells[k])).Some?) ==>
      |CellsFor(header, cells, name, parseFloat, j)| == multiset(header[..j])[name]
  {
    if j > 0 {
      CellsForCount(header, cells, name, parseFloat, j - 1);
      assert header[..j] == header[..j - 1] + [header[j - 1]];
    }
  }

  /** One line adds at most (occurrences of name in the header) values to
      column name, and exactly that many when it is well-formed and numeric. */
  lemma RowContributionCount(header: seq<string>, line: string, name: string,
                             parseFloat: string -> Option<real>)
    ensures |RowContribution(header, line, name, parseFloat)| <= multiset(header)[name]
    ensures |Split(line, ',')| == |header| &&
            (forall k :: 0 <= k < |header| ==> parseFloat(Strip(Split(line, ',')[k])).Some?) ==>
      |RowContribution(header, line, name, parseFloat)| == multiset(header)[name]
  {
    var cells := Split(line, ',');
    if |cells| == |header| {
      CellsForCount(header, cells, name, parseFloat, |header|);
      assert header[..|header|] == header;
    }
  }

  lemma MultiplySuccessor(k: int, m: int)
    ensures k * (m + 1) == k * m + k
  {
  }

  /** Every column has at most (occurrences of its name in the header) ×
      (number of data lines) values. */
  lemma ColumnLengthBound(header: seq<string>, rows: seq<string>, name: string,
                          parseFloat: string -> Option<real>)
    ensures |Column(header, rows, name, parseFloat)| <= multiset(header)[name] * |rows|
  {
    var f := line => RowContribution(header, line, name, parseFloat);
    forall i | 0 <= i < |rows| ensures |f(rows[i])| <= multiset(header)[name] {
      RowContributionCount(header, rows[i], name, parseFloat);
    }
    FlatMapLength(rows, f, multiset(header)[name]);
  }

  /** A clean table, every data line of the header's width and every cell
      numeric, yields exactly (occurrences of name) × (number of lines)
      values in column name. */
  lemma CleanColumnLength(header: seq<string>, rows: seq<string>, name: string,
                          parseFloat: string -> Option<real>)
    requires forall m :: 0 <= m < |rows| ==> |Split(rows[m], ',')| == |header|
    requires forall m, k :: 0 <= m < |rows| && 0 <= k < |header| ==>
      parseFloat(Strip(Split(rows[m], ',')[k])).Some?
    ensures |Column(header, rows, name, parseFloat)| == multiset(header)[name] * |rows|
  {
    var f := line => RowContribution(header, line, name, parseFloat);
    forall i | 0 <= i < |rows| ensures |f(rows[i])| == multiset(header)[name] {
      RowContributionCount(header, rows[i], name, parseFloat);
    }
    FlatMapLength(rows, f, multiset(header)[name]);
  }

  /** A name that appears once in a header of distinct names occurs once. */
  lemma {:induction false} DistinctOccursOnce(header: seq<string>, name: string)
    requires forall i, j :: 0 <= i < j < |header| ==> header[i] != header[j]
    requires name in header
    ensures multiset(header)[name] == 1
  {
    var last := |header| - 1;
    var front := header[..last];
    assert header == front + [header[last]];
    if header[last] == name {
      assert name !in front by {
        forall i | 0 <= i < last ensures front[i] != name {
          assert header[i] != header[last];
        }
      }
    } else {
      assert name in front;
      DistinctOccursOnce(front, name);
    }
  }

  /** With distinct header names, a clean table gives every column exactly
      one value per data line. */
  lemma CleanColumnHasEveryRow(header: seq<string>, rows: seq<string>, name: string,
                               parseFloat: string -> Option<real>)
    requires forall i, j :: 0 <= i < j < |header| ==> header[i] != header[j]
    requires name in header
    requires forall m :: 0 <= m < |rows| ==> |Split(rows[m], ',')| == |header|
    requires forall m, k :: 0 <= m < |rows| && 0 <= k < |header| ==>
      parseFloat(Strip(Split(rows[m], ',')[k])).Some?
    ensures |Column(header, rows, name, parseFloat)| == |rows|
  {
    CleanColumnLength(header, rows, name, parseFloat);
    DistinctOccursOnce(header, name);
  }

  /** With distinct header names, no column has more values than there are data lines. */
  lemma DistinctColumnBound(header: seq<string>, rows: seq<string>, name: string,
                            parseFloat: string -> Option<real>)
    requires forall i, j :: 0 <= i < j < |header| ==> header[i] != header[j]
    ensures |Column(header, rows, name, parseFloat)| <= |rows|
  {
    ColumnLengthBound(header, rows, name, parseFloat);
    if name in header {
      DistinctOccursOnce(header, name);
    } else {
      assert multiset(header)[name] == 0;
    }
  }

  /** A repeated header name shares one list: header "a,a" over the single
      line "1,2" gives column a two values. */
  lemma RepeatedHeaderNameCollects(parseFloat: string -> Option<real>)
    requires forall cell :: parseFloat(cell).Some?
    ensures |Column(["a", "a"], ["1,2"], "a", parseFloat)| == 2
  {
    assert multiset("1,2")[','] == 1;
    SplitCount("1,2", ',');
    CleanColumnLength(["a", "a"], ["1,2"], "a", parseFloat);
    assert multiset(["a", "a"])["a"] == 2;
  }

  /** A line whose cell count differs from the header's adds nothing to any column. */
  lemma MalformedRowSkipped(header: seq<string>, rows: seq<string>, line: string, name: string,
                            parseFloat: string -> Option<real>)
    requires |Split(line, ',')| != |header|
    ensures Column(header, rows + [line], name, parseFloat) == Column(header, rows, name, parseFloat)
  {
    assert (rows + [line])[..|rows|] == rows;
  }
}
