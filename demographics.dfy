/** The demographic side of a connectometry database: the subject-name scanner
    that recovers age and sex (`parse_age_sex`), and the reader behind
    `connectometry_db::parse_demo` that turns the demographic text into a row of
    column titles, a table of cells, the numeric feature columns and the
    row-major design matrix X. Number recognition (`std::stof`) is a parameter:
    `isNumber` says whether a cell parses and `value` is the number it parses to. */
module Demographics {
  import opened Common

  // ------------------------------------------------------------ parse_age_sex

  predicate IsDigit(c: char)
  {
    '0' <= c <= '9'
  }

  /** A tag such as `_M020Y_` or `_F067Y_` starts at position `j` of the name. */
  predicate TagAt(name: string, j: int)
  {
    0 <= j && j + 6 < |name| &&
    name[j] == '_' && (name[j + 1] == 'M' || name[j + 1] == 'F') &&
    IsDigit(name[j + 2]) && IsDigit(name[j + 3]) && IsDigit(name[j + 4]) &&
    name[j + 5] == 'Y' && name[j + 6] == '_'
  }

  /** `parse_age_sex`: succeeds exactly when the name holds a tag; the first tag
      gives the age (its three digits) and the sex ("1" for M, "0" for F). The
      out-parameters keep their incoming values `age0`, `sex0` on failure. */
  method ParseAgeSex(name: string, age0: string, sex0: string) returns (found: bool, age: string, sex: string)
    ensures found <==> exists j :: TagAt(name, j)
    ensures !found ==> age == age0 && sex == sex0
    ensures found ==> exists j :: TagAt(name, j) && (forall i :: 0 <= i < j ==> !TagAt(name, i)) &&
                                 age == name[j + 2..j + 5] && sex == (if name[j + 1] == 'M' then "1" else "0")
  {
    var j: nat := 0;
    while j + 6 < |name|
      invariant forall i :: 0 <= i < j ==> !TagAt(name, i)
    {
      if TagAt(name, j) {
        return true, name[j + 2..j + 5], if name[j + 1] == 'M' then "1" else "0";
      }
      j := j + 1;
    }
    return false, age0, sex0;
  }

  // ------------------------------------------------------------ tokens

  /** Cutting a string at every `sep`: k separators give k + 1 pieces. */
  function Pieces(s: string, sep: char): (r: seq<string>)
    ensures |r| >= 1
  {
    if s == [] then [[]]
    else
      var rest := Pieces(s[1..], sep);
      if s[0] == sep then [[]] + rest else [[s[0]] + rest[0]] + rest[1..]
  }

  /** Gluing pieces back together with `sep` between neighbours. */
  function Join(ps: seq<string>, sep: char): string
    requires |ps| >= 1
  {
    if |ps| == 1 then ps[0] else ps[0] + [sep] + Join(ps[1..], sep)
  }

  /** Cutting is undone by joining, and no piece holds a separator. */
  lemma {:induction false} JoinPieces(s: string, sep: char)
    ensures Join(Pieces(s, sep), sep) == s
    ensures forall k :: 0 <= k < |Pieces(s, sep)| ==> sep !in Pieces(s, sep)[k]
    decreases |s|
  {
    if s != [] {
      JoinPieces(s[1..], sep);
      if s[0] == sep {
        JoinPiecesAtSep(s, sep);
      } else {
        JoinPiecesInside(s, sep);
      }
    }
  }

  lemma {:induction false} JoinPiecesAtSep(s: string, sep: char)
    requires s != [] && s[0] == sep
    requires Join(Pieces(s[1..], sep), sep) == s[1..]
    requires forall k :: 0 <= k < |Pieces(s[1..], sep)| ==> sep !in Pieces(s[1..], sep)[k]
    ensures Join(Pieces(s, sep), sep) == s
    ensures forall k :: 0 <= k < |Pieces(s, sep)| ==> sep !in Pieces(s, sep)[k]
  {
    var rest := Pieces(s[1..], sep);
    var r := Pieces(s, sep);
    assert r == [[]] + rest;
    assert r[1..] == rest;
    assert s == [s[0]] + s[1..];
  }

  lemma {:induction false} JoinPiecesInside(s: string, sep: char)
    requires s != [] && s[0] != sep
    requires Join(Pieces(s[1..], sep), sep) == s[1..]
    requires forall k :: 0 <= k < |Pieces(s[1..], sep)| ==> sep !in Pieces(s[1..], sep)[k]
    ensures Join(Pieces(s, sep), sep) == s
    ensures forall k :: 0 <= k < |Pieces(s, sep)| ==> sep !in Pieces(s, sep)[k]
  {
    var rest := Pieces(s[1..], sep);
    assert Pieces(s, sep) == [[s[0]] + rest[0]] + rest[1..];
    JoinFrontChar(s[0], rest, sep);
    assert s == [s[0]] + s[1..];
    NoSepFrontChar(s[0], rest, sep);
  }

  /** Putting a character in front of the first piece puts it in front of the join. */
  lemma {:induction false} JoinFrontChar(c: char, ps: seq<string>, sep: char)
    requires |ps| >= 1
    ensures Join([[c] + ps[0]] + ps[1..], sep) == [c] + Join(ps, sep)
  {
    var r := [[c] + ps[0]] + ps[1..];
    assert r[0] == [c] + ps[0];
    if |ps| > 1 {
      assert r[1..] == ps[1..];
    }
  }

  lemma {:induction false} NoSepFrontChar(c: char, ps: seq<string>, sep: char)
    requires |ps| >= 1 && c != sep
    requires forall k :: 0 <= k < |ps| ==> sep !in ps[k]
    ensures forall k :: 0 <= k < |ps| ==> sep !in ([[c] + ps[0]] + ps[1..])[k]
  {
    var r := [[c] + ps[0]] + ps[1..];
    forall k | 0 <= k < |ps|
      ensures sep !in r[k]
    {
      if k > 0 {
        assert r[k] == ps[k];
      }
    }
  }

  /** The last piece is empty exactly when the string ends in the separator,
      and then there are at least two pieces. */
  lemma {:induction false} PiecesLast(s: string, sep: char)
    requires s != []
    ensures var r := Pieces(s, sep); (r[|r| - 1] == [] <==> s[|s| - 1] == sep) && (s[|s| - 1] == sep ==> |r| >= 2)
    decreases |s|
  {
    var r := Pieces(s, sep);
    var rest := Pieces(s[1..], sep);
    if |s| == 1 {
      assert s[1..] == [];
      assert rest == [[]];
    } else {
      PiecesLast(s[1..], sep);
      assert s[1..][|s[1..]| - 1] == s[|s| - 1];
      if s[0] == sep {
        assert r == [[]] + rest;
        assert r[|r| - 1] == rest[|rest| - 1];
      } else if |rest| == 1 {
        JoinPieces(s[1..], sep);
        assert rest[0] == s[1..];
        assert r == [[s[0]] + rest[0]];
      } else {
        assert r == [[s[0]] + rest[0]] + rest[1..];
        assert r[|r| - 1] == rest[|rest| - 1];
      }
    }
  }

  /** Gluing one more piece on the right. */
  lemma {:induction false} JoinSnoc(ps: seq<string>, p: string, sep: char)
    requires |ps| >= 1
    ensures Join(ps + [p], sep) == Join(ps, sep) + [sep] + p
    decreases |ps|
  {
    if |ps| > 1 {
      assert (ps + [p])[1..] == ps[1..] + [p];
      JoinSnoc(ps[1..], p, sep);
    }
  }

  lemma {:induction false} SplitLast<T>(s: seq<T>)
    requires s != []
    ensures s == s[..|s| - 1] + [s[|s| - 1]]
  {
  }

  /** What successive calls of `std::getline` with delimiter `sep` extract: the
      pieces, except that an empty last piece (after a final delimiter, or of
      an empty string) is never extracted. */
  function GetLines(s: string, sep: char): seq<string>
  {
    if s == [] then []
    else
      var ps := Pieces(s, sep);
      if ps[|ps| - 1] == [] then ps[..|ps| - 1] else ps
  }

  /** The extracted strings hold no delimiter, and joining them gives back the
      input, less the final delimiter when there is one. */
  lemma {:induction false} GetLinesJoin(s: string, sep: char)
    requires s != []
    ensures var ls := GetLines(s, sep);
            |ls| >= 1 && (forall k :: 0 <= k < |ls| ==> sep !in ls[k]) &&
            (if s[|s| - 1] == sep then Join(ls, sep) + [sep] else Join(ls, sep)) == s
  {
    var ps := Pieces(s, sep);
    var ls := GetLines(s, sep);
    assert ls == if ps[|ps| - 1] == [] then ps[..|ps| - 1] else ps;
    assert Join(ps, sep) == s && forall k :: 0 <= k < |ps| ==> sep !in ps[k] by {
      JoinPieces(s, sep);
    }
    assert (ps[|ps| - 1] == [] <==> s[|s| - 1] == sep) && (s[|s| - 1] == sep ==> |ps| >= 2) by {
      PiecesLast(s, sep);
    }
    LinesOfPieces(ps, ls, s, sep);
  }

  lemma {:induction false} LinesOfPieces(ps: seq<string>, ls: seq<string>, s: string, sep: char)
    requires s != [] && |ps| >= 1 && Join(ps, sep) == s && (forall k :: 0 <= k < |ps| ==> sep !in ps[k])
    requires (ps[|ps| - 1] == [] <==> s[|s| - 1] == sep) && (s[|s| - 1] == sep ==> |ps| >= 2)
    requires ls == if ps[|ps| - 1] == [] then ps[..|ps| - 1] else ps
    ensures |ls| >= 1 && (forall k :: 0 <= k < |ls| ==> sep !in ls[k])
    ensures (if s[|s| - 1] == sep then Join(ls, sep) + [sep] else Join(ls, sep)) == s
  {
    if s[|s| - 1] == sep {
      DropEmptyLast(ps, sep);
    }
  }

  /** Leaving out an empty last piece leaves out the last separator of the join. */
  lemma {:induction false} DropEmptyLast(ps: seq<string>, sep: char)
    requires |ps| >= 2 && ps[|ps| - 1] == [] && forall k :: 0 <= k < |ps| ==> sep !in ps[k]
    ensures var ls := ps[..|ps| - 1];
            |ls| >= 1 && (forall k :: 0 <= k < |ls| ==> sep !in ls[k]) && Join(ls, sep) + [sep] == Join(ps, sep)
  {
    var ls := ps[..|ps| - 1];
    SplitLast(ps);
    JoinSnoc(ls, [], sep);
    forall k | 0 <= k < |ls|
      ensures sep !in ls[k]
    {
      assert ls[k] == ps[k];
    }
  }

  /** The fields one CSV line contributes: `std::getline` on ',' and then, when
      the line ends in ',', one more empty field. */
  function CsvFields(line: string): seq<string>
  {
    GetLines(line, ',') + (if line != [] && line[|line| - 1] == ',' then [[]] else [])
  }

  /** The flags turned over. */
  function Negated(flags: seq<bool>): (r: seq<bool>)
    ensures |r| == |flags| && forall c :: 0 <= c < |flags| ==> r[c] == !flags[c]
  {
    seq(|flags|, c requires 0 <= c < |flags| => !flags[c])
  }

  /** The trailing-comma rule makes a non-empty CSV line split at every comma. */
  lemma {:induction false} CsvFieldsArePieces(line: string)
    requires line != []
    ensures CsvFields(line) == Pieces(line, ',')
  {
    PiecesLast(line, ',');
    var ps := Pieces(line, ',');
    if line[|line| - 1] == ',' {
      assert ps == ps[..|ps| - 1] + [[]];
    }
  }

  /** The characters `operator>>` skips between words. */
  predicate IsSpace(c: char)
  {
    c == ' ' || c == '\t' || c == '\n' || c == '\r' || c as int == 11 || c as int == 12
  }

  /** Length of the run of non-space characters at the start of `s`. */
  function WordLength(s: string): (n: nat)
    ensures n <= |s| && (forall k :: 0 <= k < n ==> !IsSpace(s[k])) && (n < |s| ==> IsSpace(s[n]))
  {
    if s == [] || IsSpace(s[0]) then 0 else 1 + WordLength(s[1..])
  }

  /** What `std::istream_iterator<std::string>` reads from a line: the maximal
      runs of non-space characters, in order. */
  function Words(s: string): (r: seq<string>)
    ensures forall k :: 0 <= k < |r| ==> r[k] != [] && forall c :: c in r[k] ==> !IsSpace(c)
    decreases |s|
  {
    if s == [] then []
    else if IsSpace(s[0]) then Words(s[1..])
    else
      var n := WordLength(s);
      [s[..n]] + Words(s[n..])
  }

  /** The characters of `s` that are not spaces, in order. */
  function NonSpace(s: string): string
  {
    if s == [] then [] else (if IsSpace(s[0]) then [] else [s[0]]) + NonSpace(s[1..])
  }

  lemma {:induction false} NonSpacePrefix(s: string, n: nat)
    requires n <= |s| && forall k :: 0 <= k < n ==> !IsSpace(s[k])
    ensures NonSpace(s) == s[..n] + NonSpace(s[n..])
  {
    if n > 0 {
      NonSpacePrefix(s[1..], n - 1);
      assert s[1..][n - 1..] == s[n..];
      assert s[..n] == [s[0]] + s[1..][..n - 1];
    }
  }

  lemma {:induction false} ConcatFront<T>(r: seq<T>, rest: seq<seq<T>>)
    ensures Concat([r] + rest) == r + Concat(rest)
  {
    ConcatAppend([r], rest);
    assert [r][..0] == [];
  }

  /** Reading words loses exactly the spaces: the words, run together, are the
      line's non-space characters. */
  lemma {:induction false} WordsKeepText(s: string)
    ensures Concat(Words(s)) == NonSpace(s)
    decreases |s|
  {
    if s != [] {
      if IsSpace(s[0]) {
        WordsKeepText(s[1..]);
      } else {
        var n := WordLength(s);
        WordsKeepText(s[n..]);
        ConcatFront(s[..n], Words(s[n..]));
        NonSpacePrefix(s, n);
      }
    }
  }

  // ------------------------------------------------------------ the table

  /** The first line decides the format of every line: CSV when it holds a
      comma, whitespace-separated otherwise. */
  predicate IsCsv(lines: seq<string>)
  {
    lines != [] && ',' in lines[0]
  }

  /** The fields one line contributes to `items`. */
  function RowFields(line: string, csv: bool): seq<string>
  {
    if csv then CsvFields(line) else Words(line)
  }

  /** Every line of the text, split into fields. */
  function AllRows(lines: seq<string>): (rows: seq<seq<string>>)
    ensures |rows| == |lines|
  {
    seq(|lines|, i requires 0 <= i < |lines| => RowFields(lines[i], IsCsv(lines)))
  }

  /** The first row that adds no field (reading stops there), or the row count. */
  function FirstEmpty(rows: seq<seq<string>>): (k: nat)
    ensures k <= |rows| && (k < |rows| ==> rows[k] == [])
    ensures forall r :: 0 <= r < k ==> rows[r] != []
  {
    if rows == [] || rows[0] == [] then 0 else 1 + FirstEmpty(rows[1..])
  }

  /** The first row from `from` on whose field count is not `cols`, or the row count. */
  function FirstMisfit(rows: seq<seq<string>>, cols: nat, from: nat): (b: nat)
    requires from <= |rows|
    ensures from <= b <= |rows| && (b < |rows| ==> |rows[b]| != cols)
    ensures forall r :: from <= r < b ==> |rows[r]| == cols
    decreases |rows| - from
  {
    if from == |rows| then from
    else if |rows[from]| != cols then from
    else FirstMisfit(rows, cols, from + 1)
  }

  /** Every row has `cols` fields. */
  predicate Uniform<T>(rows: seq<seq<T>>, cols: nat)
  {
    forall r :: 0 <= r < |rows| ==> |rows[r]| == cols
  }

  /** The rows read before the first line that adds nothing: either all of them
      agree with the title row's field count, or reading failed at the first
      row that does not (`row` counts from 1, like the message). */
  datatype Table =
    | Read(rows: seq<seq<string>>)
    | BadRow(rows: seq<seq<string>>, row: nat, fields: nat, columns: nat)

  function TableOf(lines: seq<string>): Table
  {
    var all := AllRows(lines);
    var k := FirstEmpty(all);
    if k == 0 then Read([])
    else
      var b := FirstMisfit(all[..k], |all[0]|, 1);
      if b < k then BadRow(all[..b + 1], b + 1, |all[b]|, |all[0]|) else Read(all[..k])
  }

  /** A table that was read has a non-empty title row, every row has as many
      fields as the title row, and the rows are the lines in order; a failure
      names a row whose field count differs from the title row's. */
  lemma {:induction false} TableFacts(lines: seq<string>)
    ensures var t := TableOf(lines);
            t.Read? ==> t.rows == AllRows(lines)[..|t.rows|] &&
                        (t.rows != [] ==> t.rows[0] != [] && Uniform(t.rows, |t.rows[0]|))
    ensures var t := TableOf(lines);
            t.BadRow? ==> 2 <= t.row == |t.rows| <= |lines| && t.rows == AllRows(lines)[..t.row] &&
                          t.columns == |t.rows[0]| > 0 && t.fields == |t.rows[t.row - 1]| != t.columns
  {
  }

  /** The first `i` rows all add fields and agree with the title row's count. */
  predicate ReadSoFar(all: seq<seq<string>>, i: nat)
    requires i <= |all|
  {
    (forall r :: 0 <= r < i ==> all[r] != []) &&
    (i > 0 ==> forall r :: 1 <= r < i ==> |all[r]| == |all[0]|)
  }

  /** Reading that stops at row `i` (an empty row, or the end) yields the rows before it. */
  lemma {:induction false} TableRead(lines: seq<string>, i: nat)
    requires i <= |lines| && ReadSoFar(AllRows(lines), i)
    requires i == |lines| || AllRows(lines)[i] == []
    ensures TableOf(lines) == Read(AllRows(lines)[..i])
  {
    var all := AllRows(lines);
    assert FirstEmpty(all) == i;
    if i > 0 {
      assert FirstMisfit(all[..i], |all[0]|, 1) == i;
    }
  }

  /** Reading that meets a row `i` of the wrong length fails there. */
  lemma {:induction false} TableBad(lines: seq<string>, i: nat)
    requires 1 <= i < |lines| && ReadSoFar(AllRows(lines), i)
    requires AllRows(lines)[i] != [] && |AllRows(lines)[i]| != |AllRows(lines)[0]|
    ensures var all := AllRows(lines);
            TableOf(lines) == BadRow(all[..i + 1], i + 1, |all[i]|, |all[0]|)
  {
    var all := AllRows(lines);
    var k := FirstEmpty(all);
    assert k > i;
    assert FirstMisfit(all[..k], |all[0]|, 1) == i;
  }

  /** A row that adds fields, and agrees with the title row when it is not
      the title row, extends the rows read so far. */
  lemma ReadSoFarStep(all: seq<seq<string>>, i: nat)
    requires i < |all| && ReadSoFar(all, i) && all[i] != []
    requires i > 0 ==> |all[i]| == |all[0]|
    ensures ReadSoFar(all, i + 1) && all[..i + 1] == all[..i] + [all[i]]
  {
  }

  /** The reading loop of `parse_demo`: lines are split one at a time, the
      first one fixes the format and the column count, and reading stops at a
      line that adds no field. */
  method ReadTable(lines: seq<string>) returns (t: Table)
    ensures t == TableOf(lines)
  {
    ghost var all := AllRows(lines);
    var rows: seq<seq<string>> := [];
    var csv := true;
    var cols := 0;
    var i := 0;
    while i < |lines|
      invariant i <= |lines| && rows == all[..i] && ReadSoFar(all, i)
      invariant i > 0 ==> csv == IsCsv(lines) && cols == |all[0]|
    {
      if i == 0 {
        csv := ',' in lines[0];
      }
      var fields := RowFields(lines[i], csv);
      assert fields == all[i];
      if fields == [] {
        TableRead(lines, i);
        return Read(rows);
      }
      if i == 0 {
        cols := |fields|;
      } else if |fields| != cols {
        TableBad(lines, i);
        assert rows + [fields] == all[..i + 1];
        return BadRow(rows + [fields], i + 1, |fields|, cols);
      }
      ReadSoFarStep(all, i);
      rows := rows + [fields];
      i := i + 1;
    }
    TableRead(lines, i);
    return Read(rows);
  }

  // ------------------------------------------------------------ reordering by subject name

  predicate NonEmptyRows(rows: seq<seq<string>>)
  {
    forall r :: 0 <= r < |rows| ==> rows[r] != []
  }

  /** The first row from `from` on whose first field is `name`, or the row count. */
  function FirstMatch(rows: seq<seq<string>>, name: string, from: nat): (j: nat)
    requires from <= |rows| && NonEmptyRows(rows)
    ensures from <= j <= |rows| && (j < |rows| ==> rows[j][0] == name)
    ensures forall r :: from <= r < j ==> rows[r][0] != name
    decreases |rows| - from
  {
    if from == |rows| then from
    else if rows[from][0] == name then from
    else FirstMatch(rows, name, from + 1)
  }

  /** The search for one subject's row among the data rows. */
  method FindRow(rows: seq<seq<string>>, name: string) returns (j: nat)
    requires 1 <= |rows| && NonEmptyRows(rows)
    ensures j == FirstMatch(rows, name, 1)
  {
    j := 1;
    while j < |rows| && rows[j][0] != name
      invariant 1 <= j <= |rows|
      invariant FirstMatch(rows, name, j) == FirstMatch(rows, name, 1)
    {
      j := j + 1;
    }
  }

  /** Every one of the first `n` subject names heads some data row. */
  predicate AllMatched(rows: seq<seq<string>>, names: seq<string>, n: nat)
    requires 1 <= |rows| && NonEmptyRows(rows) && n <= |names|
  {
    forall i :: 0 <= i < n ==> FirstMatch(rows, names[i], 1) < |rows|
  }

  /** The title row followed by the data row of each of the first `n` subjects,
      in the database's subject order. */
  function Reordered(rows: seq<seq<string>>, names: seq<string>, n: nat): (r: seq<seq<string>>)
    requires 1 <= |rows| && NonEmptyRows(rows) && n <= |names| && AllMatched(rows, names, n)
    ensures |r| == n + 1 && forall i :: 0 <= i < |r| ==> r[i] in rows
  {
    [rows[0]] + seq(n, i requires 0 <= i < n => rows[FirstMatch(rows, names[i], 1)])
  }

  /** The re-ordering loop of `parse_demo`: for each subject in turn the first
      data row headed by its name is copied; the loop gives up at the first
      subject without a row. */
  method MatchRows(rows: seq<seq<string>>, names: seq<string>, n: nat) returns (r: seq<seq<string>>)
    requires 1 <= |rows| && NonEmptyRows(rows) && n <= |names| && Uniform(rows, |rows[0]|)
    ensures 1 <= |r| <= n + 1 && Uniform(r, |rows[0]|)
    ensures |r| == n + 1 <==> AllMatched(rows, names, n)
    ensures AllMatched(rows, names, n) ==> r == Reordered(rows, names, n)
  {
    r := [rows[0]];
    var i := 0;
    while i < n
      invariant i <= n && |r| == i + 1 && r[0] == rows[0] && Uniform(r, |rows[0]|)
      invariant forall k :: 0 <= k < i ==> FirstMatch(rows, names[k], 1) < |rows| && r[k + 1] == rows[FirstMatch(rows, names[k], 1)]
    {
      var j := FindRow(rows, names[i]);
      if j == |rows| {
        return;
      }
      r := r + [rows[j]];
      i := i + 1;
    }
  }

  /** A name-ordered table gives subject `i` the data row headed by its name. */
  lemma {:induction false} ReorderedHeads(rows: seq<seq<string>>, names: seq<string>, n: nat, i: nat)
    requires 1 <= |rows| && NonEmptyRows(rows) && n <= |names| && AllMatched(rows, names, n)
    requires i < n
    ensures Reordered(rows, names, n)[i + 1] in rows[1..]
    ensures Reordered(rows, names, n)[i + 1][0] == names[i]
  {
    var j := FirstMatch(rows, names[i], 1);
    assert Reordered(rows, names, n)[i + 1] == rows[j] == rows[1..][j - 1];
  }

  // ------------------------------------------------------------ titles

  /** A title with ' ', '/' and '\\' replaced by '_'. */
  function Sanitised(t: string): (r: string)
    ensures |r| == |t| && forall k :: 0 <= k < |r| ==> r[k] != ' ' && r[k] != '/' && r[k] != '\\'
  {
    seq(|t|, k requires 0 <= k < |t| => if t[k] == ' ' || t[k] == '/' || t[k] == '\\' then '_' else t[k])
  }

  /** Sanitising changes only the three replaced characters, and a second pass
      changes nothing. */
  lemma {:induction false} SanitisedFacts(t: string)
    ensures forall k :: 0 <= k < |t| && t[k] != ' ' && t[k] != '/' && t[k] != '\\' ==> Sanitised(t)[k] == t[k]
    ensures Sanitised(Sanitised(t)) == Sanitised(t)
  {
  }

  /** The loop that sanitises every title. */
  method SanitiseTitles(ts: seq<string>) returns (r: seq<string>)
    ensures r == seq(|ts|, i requires 0 <= i < |ts| => Sanitised(ts[i]))
  {
    r := [];
    var i := 0;
    while i < |ts|
      invariant i <= |ts| && |r| == i && forall k :: 0 <= k < i ==> r[k] == Sanitised(ts[k])
    {
      r := r + [Sanitised(ts[i])];
      i := i + 1;
    }
  }

  // ------------------------------------------------------------ feature columns

  /** A cell the number test never rejects: a blank (" ", "\r" or empty) or a number. */
  predicate OkCell(s: string, isNumber: string -> bool)
  {
    s == " " || s == "\r" || s == "" || isNumber(s)
  }

  /** Column `c` holds only acceptable cells in the first `r` data rows. */
  predicate ColumnOk(data: seq<seq<string>>, cols: nat, c: nat, r: nat, isNumber: string -> bool)
    requires Uniform(data, cols) && c < cols && r <= |data|
  {
    r == 0 || (ColumnOk(data, cols, c, r - 1, isNumber) && OkCell(data[r - 1][c], isNumber))
  }

  lemma {:induction false} ColumnOkAll(data: seq<seq<string>>, cols: nat, c: nat, r: nat, isNumber: string -> bool)
    requires Uniform(data, cols) && c < cols && r <= |data|
    ensures ColumnOk(data, cols, c, r, isNumber) <==> forall k :: 0 <= k < r ==> OkCell(data[k][c], isNumber)
  {
    if r > 0 {
      ColumnOkAll(data, cols, c, r - 1, isNumber);
    }
  }

  /** A cell after the scan: a lone " " or "\r" is emptied while its column has
      been acceptable in every earlier row; every other cell is kept. */
  function CleanCell(data: seq<seq<string>>, cols: nat, r: nat, c: nat, isNumber: string -> bool): string
    requires Uniform(data, cols) && r < |data| && c < cols
  {
    if (data[r][c] == " " || data[r][c] == "\r") && ColumnOk(data, cols, c, r, isNumber) then "" else data[r][c]
  }

  function CleanRow(data: seq<seq<string>>, cols: nat, r: nat, isNumber: string -> bool): (row: seq<string>)
    requires Uniform(data, cols) && r < |data|
    ensures |row| == cols
  {
    seq(cols, c requires 0 <= c < cols => CleanCell(data, cols, r, c, isNumber))
  }

  function Cleaned(data: seq<seq<string>>, cols: nat, isNumber: string -> bool): (d: seq<seq<string>>)
    requires Uniform(data, cols)
    ensures |d| == |data| && Uniform(d, cols)
  {
    seq(|data|, r requires 0 <= r < |data| => CleanRow(data, cols, r, isNumber))
  }

  /** Column `c` is a feature column: acceptable in every data row. */
  function Numeric(data: seq<seq<string>>, cols: nat, isNumber: string -> bool): (m: seq<bool>)
    requires Uniform(data, cols)
    ensures |m| == cols
  {
    seq(cols, c requires 0 <= c < cols => ColumnOk(data, cols, c, |data|, isNumber))
  }

  /** The flags of `not_number` after the first `r` data rows. */
  predicate FlagsAt(data: seq<seq<string>>, cols: nat, flags: seq<bool>, r: nat, isNumber: string -> bool)
    requires Uniform(data, cols) && r <= |data|
  {
    |flags| == cols && forall c :: 0 <= c < cols ==> flags[c] == !ColumnOk(data, cols, c, r, isNumber)
  }

  /** One data row of the number scan. */
  method ScanRow(data: seq<seq<string>>, cols: nat, r: nat, notNumber: seq<bool>, isNumber: string -> bool)
    returns (row: seq<string>, flags: seq<bool>)
    requires Uniform(data, cols) && r < |data| && FlagsAt(data, cols, notNumber, r, isNumber)
    ensures row == CleanRow(data, cols, r, isNumber) && FlagsAt(data, cols, flags, r + 1, isNumber)
  {
    row := [];
    flags := notNumber;
    var c := 0;
    while c < cols
      invariant c <= cols && |flags| == cols && |row| == c
      invariant forall k :: 0 <= k < c ==> row[k] == CleanCell(data, cols, r, k, isNumber)
      invariant forall k :: 0 <= k < c ==> flags[k] == !ColumnOk(data, cols, k, r + 1, isNumber)
      invariant forall k :: c <= k < cols ==> flags[k] == notNumber[k]
    {
      var cell := data[r][c];
      if !flags[c] {
        if cell == " " || cell == "\r" {
          cell := "";
        }
        if cell != "" && !isNumber(cell) {
          flags := flags[c := true];
        }
      }
      row := row + [cell];
      c := c + 1;
    }
  }

  /** The scan of `parse_demo` that decides which columns are numbers: a column
      is marked as soon as one of its cells is neither blank nor a number, and
      blanks are emptied only while their column is still unmarked. */
  method ScanColumns(data: seq<seq<string>>, cols: nat, isNumber: string -> bool)
    returns (cleaned: seq<seq<string>>, notNumber: seq<bool>)
    requires Uniform(data, cols)
    ensures cleaned == Cleaned(data, cols, isNumber)
    ensures |notNumber| == cols && forall c :: 0 <= c < cols ==> notNumber[c] == !Numeric(data, cols, isNumber)[c]
  {
    notNumber := seq(cols, c => false);
    cleaned := [];
    var r := 0;
    while r < |data|
      invariant r <= |data| && FlagsAt(data, cols, notNumber, r, isNumber)
      invariant cleaned == Cleaned(data, cols, isNumber)[..r]
    {
      var row;
      row, notNumber := ScanRow(data, cols, r, notNumber, isNumber);
      cleaned := cleaned + [row];
      r := r + 1;
    }
  }

  /** In a feature column every cell, after the scan, is empty or a number; a
      cell of any other column that is neither is kept as it was. Hence a column
      is a feature column exactly when its scanned cells are all empty or numbers. */
  lemma {:induction false} NumericIff(data: seq<seq<string>>, cols: nat, c: nat, isNumber: string -> bool)
    requires Uniform(data, cols) && c < cols
    ensures Numeric(data, cols, isNumber)[c] <==>
            forall r :: 0 <= r < |data| ==> Cleaned(data, cols, isNumber)[r][c] == "" || isNumber(Cleaned(data, cols, isNumber)[r][c])
  {
    var cl := Cleaned(data, cols, isNumber);
    ColumnOkAll(data, cols, c, |data|, isNumber);
    if Numeric(data, cols, isNumber)[c] {
      forall r | 0 <= r < |data|
        ensures cl[r][c] == "" || isNumber(cl[r][c])
      {
        ColumnOkAll(data, cols, c, r, isNumber);
        assert OkCell(data[r][c], isNumber);
      }
    } else {
      var r :| 0 <= r < |data| && !OkCell(data[r][c], isNumber);
      assert cl[r][c] == data[r][c];
    }
  }

  /** The loop that lists the feature columns and their titles. */
  method FeatureColumns(notNumber: seq<bool>, titles: seq<string>) returns (loc: seq<nat>, names: seq<string>)
    requires |titles| == |notNumber|
    ensures loc == Indices(Negated(notNumber))
    ensures |names| == |loc| && forall j :: 0 <= j < |loc| ==> loc[j] < |titles| && names[j] == titles[loc[j]]
  {
    ghost var keep := Negated(notNumber);
    loc, names := [], [];
    var i: nat := 0;
    while i < |notNumber|
      invariant i <= |notNumber| && loc == Indices(keep[..i])
      invariant |names| == |loc|
      invariant forall j :: 0 <= j < |loc| ==> loc[j] < |titles|
      invariant forall j :: 0 <= j < |loc| ==> names[j] == titles[loc[j]]
    {
      IndicesSnoc(keep, i);
      if !notNumber[i] {
        loc, names := loc + [i], names + [titles[i]];
      }
      i := i + 1;
    }
    assert keep[..i] == keep;
  }

  // ------------------------------------------------------------ the design matrix X

  /** An entry of X: NaN for a missing value, or a number. */
  datatype Cell = NaN | Num(v: real)

  /** The value X holds for subject `i` in column `c`: NaN when the position lies
      past the cells or the cell is empty, the parsed number otherwise. */
  function CellAt(data: seq<seq<string>>, i: nat, c: nat, value: string -> real): Cell
  {
    if i >= |data| || c >= |data[i]| then NaN
    else if data[i][c] == "" then NaN
    else Num(value(data[i][c]))
  }

  /** Subject `i`'s row of X: the intercept 1 followed by its feature values. */
  function XRow(data: seq<seq<string>>, i: nat, loc: seq<nat>, value: string -> real): (row: seq<Cell>)
    ensures |row| == |loc| + 1 && row[0] == Num(1.0)
    ensures forall j :: 0 <= j < |loc| ==> row[j + 1] == CellAt(data, i, loc[j], value)
  {
    [Num(1.0)] + seq(|loc|, j requires 0 <= j < |loc| => CellAt(data, i, loc[j], value))
  }

  function XRows(data: seq<seq<string>>, n: nat, loc: seq<nat>, value: string -> real): (rs: seq<seq<Cell>>)
    ensures |rs| == n && Uniform(rs, |loc| + 1)
  {
    seq(n, i requires 0 <= i < n => XRow(data, i, loc, value))
  }

  /** One subject's row appended to X. */
  method AppendXRow(x: seq<Cell>, data: seq<seq<string>>, i: nat, loc: seq<nat>, value: string -> real)
    returns (y: seq<Cell>)
    ensures y == x + XRow(data, i, loc, value)
  {
    ghost var row := XRow(data, i, loc, value);
    y := x + [Num(1.0)];
    var j := 0;
    while j < |loc|
      invariant j <= |loc| && y == x + row[..j + 1]
    {
      assert row[..j + 2] == row[..j + 1] + [CellAt(data, i, loc[j], value)];
      y := y + [CellAt(data, i, loc[j], value)];
      j := j + 1;
    }
    assert row[..j + 1] == row;
  }

  /** The loop of `parse_demo` that fills X row by row. */
  method BuildX(data: seq<seq<string>>, n: nat, loc: seq<nat>, value: string -> real) returns (x: seq<Cell>)
    ensures x == Concat(XRows(data, n, loc, value))
  {
    ghost var rs := XRows(data, n, loc, value);
    x := [];
    var i := 0;
    while i < n
      invariant i <= n && x == Concat(rs[..i])
    {
      assert rs[..i + 1][..i] == rs[..i];
      x := AppendXRow(x, data, i, loc, value);
      i := i + 1;
    }
    assert rs[..i] == rs;
  }

  // ------------------------------------------------------------ row-major layout

  /** A row-major matrix cut into rows of width `w`; a trailing partial row is dropped. */
  function Rows<T>(x: seq<T>, w: nat): (rs: seq<seq<T>>)
    requires w > 0
    ensures Uniform(rs, w)
    decreases |x|
  {
    if |x| < w then [] else [x[..w]] + Rows(x[w..], w)
  }

  /** Cutting rows of equal width that were laid end to end gives them back. */
  lemma {:induction false} RowsOfConcat<T>(rs: seq<seq<T>>, w: nat)
    requires w > 0 && Uniform(rs, w)
    ensures Rows(Concat(rs), w) == rs
    decreases |rs|
  {
    if rs != [] {
      ConcatFront(rs[0], rs[1..]);
      assert [rs[0]] + rs[1..] == rs;
      var c := Concat(rs[1..]);
      assert (rs[0] + c)[..w] == rs[0];
      assert (rs[0] + c)[w..] == c;
      RowsOfConcat(rs[1..], w);
    }
  }

  lemma {:induction false} ConcatSize<T>(rs: seq<seq<T>>, w: nat)
    requires Uniform(rs, w)
    ensures |Concat(rs)| == |rs| * w
  {
    if rs != [] {
      var init := rs[..|rs| - 1];
      ConcatSize(init, w);
      assert |Concat(rs)| == |Concat(init)| + w;
      assert |rs| * w == |init| * w + w;
    }
  }

  lemma {:induction false} MulMono(a: nat, b: nat, c: nat)
    requires a <= b
    ensures a * c <= b * c
  {
    if a < b && c > 0 {
      MulStrict(a, b, c);
    }
  }

  /** A non-zero multiple of `w` is at least `w` away from zero. */
  lemma {:induction false} MulFacts(k: int, w: nat)
    ensures k >= 1 ==> k * w >= w
    ensures k <= -1 ==> k * w + w <= 0
  {
    if k >= 1 {
      MulMono(1, k, w);
    } else if k <= -1 {
      MulMono(1, -k, w);
      assert k * w == -((-k) * w);
    }
  }

  /** Euclidean division has one quotient. */
  lemma {:induction false} DivUnique(a: nat, w: nat, q: nat, r: nat)
    requires w > 0 && r < w && a == q * w + r
    ensures a / w == q
  {
    var q0, r0 := a / w, a % w;
    assert a == q0 * w + r0;
    assert (q0 - q) * w == r - r0;
    MulFacts(q0 - q, w);
  }

  /** A row-major matrix of width `w` has `|x| / w` whole rows. */
  lemma {:induction false} RowsCount<T>(x: seq<T>, w: nat)
    requires w > 0
    ensures |Rows(x, w)| == |x| / w
    decreases |x|
  {
    if |x| < w {
      DivUnique(|x|, w, 0, |x|);
    } else {
      RowsCount(x[w..], w);
      var q, r := (|x| - w) / w, (|x| - w) % w;
      assert |x| - w == q * w + r;
      assert |x| == (q + 1) * w + r;
      DivUnique(|x|, w, q + 1, r);
    }
  }

  /** Row `i` of a row-major matrix of width `w` starts at position `i * w`. */
  lemma {:induction false} RowsAt<T>(x: seq<T>, w: nat, i: nat)
    requires w > 0 && i < |Rows(x, w)|
    ensures (i + 1) * w <= |x| && Rows(x, w)[i] == x[i * w..(i + 1) * w]
  {
    if i > 0 {
      RowsAt(x[w..], w, i - 1);
      MulSucc(i - 1, w);
      MulSucc(i, w);
      assert Rows(x, w)[i] == Rows(x[w..], w)[i - 1];
    }
  }

  /** One more row of width `w` is `w` more entries. */
  lemma {:induction false} MulSucc(i: nat, w: nat)
    ensures (i + 1) * w == i * w + w
  {
  }

  /** Erasing the `w` entries of row `i`, which start at `a == i * w`, erases
      that row and no other. */
  lemma {:induction false} RemoveRow<T>(x: seq<T>, w: nat, i: nat, a: nat)
    requires w > 0 && a == i * w && a + w <= |x|
    ensures i < |Rows(x, w)|
    ensures Rows(x[..a] + x[a + w..], w) == RemoveAt(Rows(x, w), i)
    decreases i
  {
    var y := x[w..];
    assert Rows(x, w) == [x[..w]] + Rows(y, w);
    if i == 0 {
      assert x[..a] + x[a + w..] == y;
    } else {
      assert (i - 1) * w == a - w;
      RemoveRow(y, w, i - 1, a - w);
      var z := x[..a] + x[a + w..];
      SliceAfterFirst(x, w, a);
      assert Rows(z, w) == [x[..w]] + Rows(y[..a - w] + y[a..], w);
    }
  }

  lemma {:induction false} SliceAfterFirst<T>(x: seq<T>, w: nat, a: nat)
    requires w <= a && a + w <= |x|
    ensures var z := x[..a] + x[a + w..];
            |z| >= w && z[..w] == x[..w] && z[w..] == x[w..][..a - w] + x[w..][a..]
  {
    var z := x[..a] + x[a + w..];
    assert z[..w] == x[..w];
    assert z[w..] == x[w..][..a - w] + x[w..][a..];
  }

  lemma {:induction false} MulStrict(a: nat, b: nat, c: nat)
    requires a < b && c > 0
    ensures a * c < b * c
  {
    assert b * c == a * c + (b - a) * c;
  }

  /** How `parse_demo`'s size tests on `items` read on the rows: with `cols`
      fields per row, comparing the field count with `m * cols` compares the
      row count with `m`. */
  lemma {:induction false} SizeCompare<T>(rows: seq<seq<T>>, cols: nat, m: nat)
    requires Uniform(rows, cols) && (rows != [] ==> cols > 0)
    ensures rows == [] ==> |Concat(rows)| == 0
    ensures rows != [] ==> (|Concat(rows)| < m * cols <==> |rows| < m) && (|Concat(rows)| == m * cols <==> |rows| == m)
  {
    ConcatSize(rows, cols);
    if rows != [] && |rows| < m {
      MulStrict(|rows|, m, cols);
    } else if rows != [] && |rows| > m {
      MulStrict(m, |rows|, cols);
    }
  }

  // ------------------------------------------------------------ parse_demo as a whole

  /** The messages `parse_demo` can leave in `error_msg`, with the numbers they print. */
  datatype DemoError =
    | RowLength(row: nat, fields: nat, columns: nat)   // "... at row=R has F fields, which is different from the column size C."
    | InvalidFormat                                    // "Invalid demographic format"
    | SubjectMismatch(rows: int, subjects: nat)        // "Subject number mismatch. The demographic file has R subject rows, ..."

  /** A failed read: the message, and the fields `items` holds at that point. */
  datatype Failure = Failure(error: DemoError, items: seq<string>)

  /** A successful read: the sanitised titles, the data cells after the number
      scan, the feature columns with their titles, and X. */
  datatype Demo = Demo(titles: seq<string>, data: seq<seq<string>>, features: seq<nat>,
                       featureTitles: seq<string>, x: seq<Cell>)

  /** The shape checks: a table of one row is malformed; a table with exactly
      one data row per subject (or no rows at all) is kept; a longer one is
      re-ordered by subject name when every subject has a row; anything else is
      a subject-count mismatch. */
  function Shaped(lines: seq<string>, names: seq<string>, n: nat): (res: Result<seq<seq<string>>, Failure>)
    requires n <= |names|
    ensures res.Ok? ==> Shapely(res.value) && (res.value == [] || |res.value| == n + 1)
  {
    TableFacts(lines);
    match TableOf(lines)
    case BadRow(rows, row, fields, columns) => Err(Failure(RowLength(row, fields, columns), Concat(rows)))
    case Read(rows) =>
      if |rows| == 1 then Err(Failure(InvalidFormat, Concat(rows)))
      else if rows == [] || |rows| == n + 1 then Ok(rows)
      else if |rows| > n + 1 && AllMatched(rows, names, n) then Ok(Reordered(rows, names, n))
      else Err(Failure(SubjectMismatch(|rows| - 1, n), Concat(rows)))
  }

  lemma {:induction false} IndicesBelow(keep: seq<bool>)
    ensures forall j :: 0 <= j < |Indices(keep)| ==> Indices(keep)[j] < |keep|
  {
    var r := Indices(keep);
    forall j | 0 <= j < |r|
      ensures r[j] < |keep|
    {
      assert r[j] in r;
    }
  }

  /** The entries of `s` at the positions `loc`, in that order. */
  function Select<T>(s: seq<T>, loc: seq<nat>): (r: seq<T>)
    requires forall j :: 0 <= j < |loc| ==> loc[j] < |s|
    ensures |r| == |loc| && forall j :: 0 <= j < |loc| ==> r[j] == s[loc[j]]
  {
    seq(|loc|, j requires 0 <= j < |loc| => s[loc[j]])
  }

  /** A table that passed the shape checks. */
  predicate Shapely(rows: seq<seq<string>>)
  {
    rows == [] || (rows[0] != [] && Uniform(rows, |rows[0]|))
  }

  /** What the rest of `parse_demo` makes of a table that passed the shape checks. */
  function DemoOf(rows: seq<seq<string>>, n: nat, isNumber: string -> bool, value: string -> real): Demo
    requires Shapely(rows)
  {
    var header := if rows == [] then [] else rows[0];
    var data := if rows == [] then [] else rows[1..];
    var cols := |header|;
    var titles := seq(cols, c requires 0 <= c < cols => Sanitised(header[c]));
    var loc := Indices(Numeric(data, cols, isNumber));
    var cleaned := Cleaned(data, cols, isNumber);
    IndicesBelow(Numeric(data, cols, isNumber));
    Demo(titles, cleaned, loc, Select(titles, loc), Concat(XRows(cleaned, n, loc, value)))
  }

  /** `parse_demo` on the demographic text `demo`, for a database whose first
      `n` subject names are `names`. */
  function Parse(demo: string, names: seq<string>, n: nat, isNumber: string -> bool, value: string -> real): Result<Demo, Failure>
    requires n <= |names|
  {
    match Shaped(GetLines(demo, '\n'), names, n)
    case Err(f) => Err(f)
    case Ok(rows) => Ok(DemoOf(rows, n, isNumber, value))
  }

  /** The reading and shape-checking half of `parse_demo`. */
  method ShapeTable(lines: seq<string>, names: seq<string>, n: nat) returns (res: Result<seq<seq<string>>, Failure>)
    requires n <= |names|
    ensures res == Shaped(lines, names, n)
  {
    var t := ReadTable(lines);
    TableFacts(lines);
    if t.BadRow? {
      return Err(Failure(RowLength(t.row, t.fields, t.columns), Concat(t.rows)));
    }
    var rows := t.rows;
    var items := Concat(rows);
    var cols := if rows == [] then 0 else |rows[0]|;
    SizeCompare(rows, cols, 2);
    if |items| < 2 * cols {
      return Err(Failure(InvalidFormat, items));
    }
    SizeCompare(rows, cols, n + 1);
    if |items| > (n + 1) * cols {
      var picked := MatchRows(rows, names, n);
      SizeCompare(picked, cols, n + 1);
      if |Concat(picked)| == (n + 1) * cols {
        rows, items := picked, Concat(picked);
      }
    }
    if |items| != (n + 1) * cols {
      return Err(Failure(SubjectMismatch(|t.rows| - 1, n), items));
    }
    return Ok(rows);
  }

  /** The second half of `parse_demo`: sanitise the titles, scan for numbers,
      list the features and fill X. */
  method BuildDemo(rows: seq<seq<string>>, n: nat, isNumber: string -> bool, value: string -> real) returns (d: Demo)
    requires Shapely(rows)
    ensures d == DemoOf(rows, n, isNumber, value)
  {
    var cols := if rows == [] then 0 else |rows[0]|;
    var header := if rows == [] then [] else rows[0];
    var data := if rows == [] then [] else rows[1..];
    var titles := SanitiseTitles(header);
    var cleaned, notNumber := ScanColumns(data, cols, isNumber);
    assert Negated(notNumber) == Numeric(data, cols, isNumber);
    var loc, featureTitles := FeatureColumns(notNumber, titles);
    assert featureTitles == Select(titles, loc);
    var x := BuildX(cleaned, n, loc, value);
    return Demo(titles, cleaned, loc, featureTitles, x);
  }

  /** The body of `parse_demo`. */
  method ParseDemoText(demo: string, names: seq<string>, n: nat, isNumber: string -> bool, value: string -> real)
    returns (res: Result<Demo, Failure>)
    requires n <= |names|
    ensures res == Parse(demo, names, n, isNumber, value)
  {
    var lines := GetLines(demo, '\n');
    var shaped := ShapeTable(lines, names, n);
    if shaped.Err? {
      return Err(shaped.error);
    }
    var d := BuildDemo(shaped.value, n, isNumber, value);
    return Ok(d);
  }

  /** What a successful read guarantees of the table: one data row per subject
      (or no table at all), every row as wide as the titles, titles free of
      ' ', '/' and '\\', and feature titles that are the titles of the
      feature columns. */
  lemma {:induction false} ParseShape(demo: string, names: seq<string>, n: nat, isNumber: string -> bool, value: string -> real)
    requires n <= |names| && Parse(demo, names, n, isNumber, value).Ok?
    ensures var d := Parse(demo, names, n, isNumber, value).value;
            (|d.data| == n || (d.titles == [] && d.data == [])) && Uniform(d.data, |d.titles|) &&
            (forall c :: 0 <= c < |d.titles| ==> ' ' !in d.titles[c] && '/' !in d.titles[c] && '\\' !in d.titles[c]) &&
            |d.featureTitles| == |d.features| &&
            (forall j :: 0 <= j < |d.features| ==> d.features[j] < |d.titles| && d.featureTitles[j] == d.titles[d.features[j]])
  {
    var rows := Shaped(GetLines(demo, '\n'), names, n).value;
    var d := Parse(demo, names, n, isNumber, value).value;
    var data := if rows == [] then [] else rows[1..];
    IndicesBelow(Numeric(data, |d.titles|, isNumber));
    forall c | 0 <= c < |d.titles|
      ensures ' ' !in d.titles[c] && '/' !in d.titles[c] && '\\' !in d.titles[c]
    {
      assert d.titles[c] == Sanitised(rows[0][c]);
    }
  }

  /** X after a successful read: n rows, each the intercept 1 followed by one
      value per feature column. */
  lemma {:induction false} ParseX(demo: string, names: seq<string>, n: nat, isNumber: string -> bool, value: string -> real)
    requires n <= |names| && Parse(demo, names, n, isNumber, value).Ok?
    ensures var d := Parse(demo, names, n, isNumber, value).value;
            |d.x| == n * (|d.features| + 1) && Rows(d.x, |d.features| + 1) == XRows(d.data, n, d.features, value)
  {
    var d := Parse(demo, names, n, isNumber, value).value;
    var rs := XRows(d.data, n, d.features, value);
    assert d.x == Concat(rs);
    ConcatSize(rs, |d.features| + 1);
    RowsOfConcat(rs, |d.features| + 1);
  }

  /** The feature columns are listed in ascending order, and a column is one
      exactly when each of its cells is empty or a number; so the parse of a
      non-empty cell into X never fails. */
  lemma {:induction false} ParseFeatures(demo: string, names: seq<string>, n: nat, isNumber: string -> bool, value: string -> real, c: nat)
    requires n <= |names| && Parse(demo, names, n, isNumber, value).Ok?
    requires c < |Parse(demo, names, n, isNumber, value).value.titles|
    ensures var d := Parse(demo, names, n, isNumber, value).value;
            Increasing(d.features) &&
            (c in d.features <==> forall r :: 0 <= r < |d.data| ==> d.data[r][c] == "" || isNumber(d.data[r][c]))
  {
    var rows := Shaped(GetLines(demo, '\n'), names, n).value;
    var data := if rows == [] then [] else rows[1..];
    var cols := if rows == [] then 0 else |rows[0]|;
    NumericIff(data, cols, c, isNumber);
  }

  /** When the file lists more rows than there are subjects, a successful read
      has re-ordered them: data row `i` is a row of the file headed by the
      name of subject `i`. */
  lemma {:induction false} ParseOrder(demo: string, names: seq<string>, n: nat, i: nat)
    requires n <= |names| && i < n
    requires Shaped(GetLines(demo, '\n'), names, n).Ok?
    requires |TableOf(GetLines(demo, '\n')).rows| > n + 1
    ensures var rows := Shaped(GetLines(demo, '\n'), names, n).value;
            rows[i + 1] in TableOf(GetLines(demo, '\n')).rows[1..] && rows[i + 1][0] == names[i]
  {
    var lines := GetLines(demo, '\n');
    TableFacts(lines);
    ReorderedHeads(TableOf(lines).rows, names, n, i);
  }
}
