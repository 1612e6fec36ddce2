/**
 * The plain-text board format of `SaveAsTxt` and `LoadFromTxt`
 * (Life/Program.cs), as lines of text:
 *   Width=<int>
 *   Height=<int>
 *   CellSize=<int>
 * followed by one line per row, '*' for a live cell and '.' for a dead one.
 */
module TextFormat {
  import opened Wrappers
  import opened Torus

  /** The exceptions the loader can raise on malformed lines. */
  datatype LoadError =
    | IndexOutOfRange  // a missing line, a header without '=', or a row too short
    | Format           // a header value that is not an integer
    | Overflow         // a header value outside the int range, or a negative board size
    | DivideByZero     // a cell size of 0

  predicate IsDigit(c: char) {
    '0' <= c <= '9'
  }

  predicate AllDigits(s: string) {
    forall i :: 0 <= i < |s| ==> IsDigit(s[i])
  }

  function DigitChar(d: nat): (c: char)
    requires d < 10
    ensures IsDigit(c) && c as int - '0' as int == d
  {
    (d + '0' as int) as char
  }

  /** The decimal digits of `n`, most significant first, without leading zeros. */
  function NatToString(n: nat): (s: string)
    ensures |s| > 0 && AllDigits(s)
  {
    if n < 10 then [DigitChar(n)] else NatToString(n / 10) + [DigitChar(n % 10)]
  }

  /** An int as an interpolated string shows it: a '-' before the digits of a negative value. */
  function IntToString(n: int): (s: string)
    ensures |s| > 0
    ensures n < 0 ==> s[0] == '-' && |s| > 1 && AllDigits(s[1..])
    ensures n >= 0 ==> AllDigits(s)
  {
    if n < 0 then "-" + NatToString(-n) else NatToString(n)
  }

  /** The value of a string of decimal digits. */
  function DigitsValue(s: string): nat
    requires AllDigits(s)
  {
    if s == [] then 0 else DigitsValue(s[..|s| - 1]) * 10 + (s[|s| - 1] as int - '0' as int)
  }

  lemma {:induction false} DigitsValueOfNat(n: nat)
    ensures DigitsValue(NatToString(n)) == n
  {
    if n >= 10 {
      var s := NatToString(n);
      assert s[..|s| - 1] == NatToString(n / 10);
      DigitsValueOfNat(n / 10);
    }
  }

  /** `int.Parse`: an optional sign then at least one digit; a value outside
      the int range overflows. */
  function ParseInt(s: string): (r: Result<int, LoadError>)
    ensures r.Success? ==> IsInt32(r.value)
  {
    var signed := |s| > 0 && (s[0] == '-' || s[0] == '+');
    var digits := if signed then s[1..] else s;
    if digits == [] || !AllDigits(digits) then Failure(Format)
    else
      var value: int := if signed && s[0] == '-' then -(DigitsValue(digits) as int) else DigitsValue(digits);
      if IsInt32(value) then Success(value) else Failure(Overflow)
  }

  /** Printing an int and parsing it back gives the same int. */
  lemma ParseIntToString(n: int)
    requires IsInt32(n)
    ensures ParseInt(IntToString(n)) == Success(n)
  {
    var s := IntToString(n);
    if n < 0 {
      assert s[1..] == NatToString(-n);
      DigitsValueOfNat(-n);
    } else {
      DigitsValueOfNat(n);
    }
  }

  /** `s.Split(separator)`: the pieces between separators, empty ones included. */
  function Split(s: string, separator: char): (parts: seq<string>)
    ensures |parts| >= 1
  {
    if s == [] then [""]
    else
      var rest := Split(s[1..], separator);
      if s[0] == separator then [""] + rest else [[s[0]] + rest[0]] + rest[1..]
  }

  /** No piece holds the separator: `Width=10=5` splits into three pieces. */
  lemma {:induction false} SplitPieces(s: string, separator: char)
    ensures forall i :: 0 <= i < |Split(s, separator)| ==> separator !in Split(s, separator)[i]
  {
    if s != [] {
      SplitPieces(s[1..], separator);
      var rest := Split(s[1..], separator);
      var parts := Split(s, separator);
      if s[0] != separator {
        assert parts == [[s[0]] + rest[0]] + rest[1..];
        forall i | 0 <= i < |parts|
          ensures separator !in parts[i]
        {
          if i > 0 {
            assert parts[i] == rest[i];
          }
        }
      } else {
        assert parts == [""] + rest;
        forall i | 0 <= i < |parts|
          ensures separator !in parts[i]
        {
          if i > 0 {
            assert parts[i] == rest[i - 1];
          }
        }
      }
    }
  }

  /** `string.Join(separator, parts)`: the pieces with one separator between neighbours. */
  function Join(parts: seq<string>, separator: char): (s: string)
    requires |parts| >= 1
    ensures |s| >= |parts| - 1
  {
    if |parts| == 1 then parts[0] else parts[0] + [separator] + Join(parts[1..], separator)
  }

  /** Splitting loses nothing: joining the pieces with the separator gives the string back. */
  lemma {:induction false} JoinSplit(s: string, separator: char)
    ensures Join(Split(s, separator), separator) == s
  {
    if s != [] {
      var rest := Split(s[1..], separator);
      JoinSplit(s[1..], separator);
      if s[0] == separator {
        assert ([""] + rest)[1..] == rest;
      } else if |rest| > 1 {
        var parts := [[s[0]] + rest[0]] + rest[1..];
        assert parts[1..] == rest[1..];
        assert Join(rest, separator) == rest[0] + [separator] + Join(rest[1..], separator);
      }
      assert [s[0]] + s[1..] == s;
    }
  }

  lemma {:induction false} SplitNone(s: string, separator: char)
    requires separator !in s
    ensures Split(s, separator) == [s]
  {
    if s != [] {
      SplitNone(s[1..], separator);
      assert [s[0]] + s[1..] == s;
    }
  }

  lemma {:induction false} SplitPair(key: string, value: string, separator: char)
    requires separator !in key && separator !in value
    ensures Split(key + [separator] + value, separator) == [key, value]
  {
    var s := key + [separator] + value;
    if key == [] {
      assert s[1..] == value;
      SplitNone(value, separator);
    } else {
      assert s[1..] == key[1..] + [separator] + value;
      SplitPair(key[1..], value, separator);
      assert [key[0]] + key[1..] == key;
    }
  }

  /** `int.Parse(line.Split('=')[1])`: the key before '=' is not looked at. */
  function HeaderValue(line: string): (r: Result<int, LoadError>)
    ensures r.Success? ==> IsInt32(r.value)
    ensures '=' !in line ==> r == Failure(IndexOutOfRange)
  {
    var parts := Split(line, '=');
    assert '=' !in line ==> parts == [line] by {
      if '=' !in line {
        SplitNone(line, '=');
      }
    }
    if |parts| < 2 then Failure(IndexOutOfRange) else ParseInt(parts[1])
  }

  lemma HeaderOf(key: string, n: int)
    requires '=' !in key && IsInt32(n)
    ensures HeaderValue(key + "=" + IntToString(n)) == Success(n)
  {
    assert '=' !in IntToString(n);
    SplitPair(key, IntToString(n), '=');
    ParseIntToString(n);
  }

  /** The row of `g` with index `y`, one character per column. */
  function RowLine(g: Grid, y: int): (line: string)
    requires g.Valid() && 0 <= y < g.rows
    ensures |line| == g.columns
    ensures forall x :: 0 <= x < g.columns ==> (line[x] == '*' <==> g.alive[x][y]) && line[x] in "*."
  {
    seq(g.columns, x requires 0 <= x < g.columns => if g.alive[x][y] then '*' else '.')
  }

  /** The lines `SaveAsTxt` writes for a board with grid `g`. */
  function SaveLines(g: Grid, cellSize: int): (lines: seq<string>)
    requires g.Valid()
    ensures |lines| == 3 + g.rows
    ensures lines[0] == "Width=" + IntToString(g.columns * cellSize)
    ensures lines[1] == "Height=" + IntToString(g.rows * cellSize)
    ensures lines[2] == "CellSize=" + IntToString(cellSize)
    ensures forall y :: 0 <= y < g.rows ==> lines[3 + y] == RowLine(g, y)
  {
    ["Width=" + IntToString(g.columns * cellSize),
     "Height=" + IntToString(g.rows * cellSize),
     "CellSize=" + IntToString(cellSize)] +
    seq(g.rows, y requires 0 <= y < g.rows => RowLine(g, y))
  }

  /** What `LoadFromTxt` reads: the cell size and the grid. */
  datatype Loaded = Loaded(cellSize: int, grid: Grid)

  /** Every one of the `rows` lines after the headers exists and has at least
      `columns` characters. */
  predicate RowsPresent(lines: seq<string>, columns: int, rows: int)
  {
    3 + rows <= |lines| && forall i :: 3 <= i < 3 + rows ==> |lines[i]| >= columns
  }

  /** The three header values of a text file. */
  datatype Header = Header(width: int, height: int, cellSize: int)

  /** The three headers `LoadFromTxt` reads and the board size they give, or
      the exception raised on the way: a missing line, a value that is not an
      int, a zero cell size, or a column or row count that is negative or
      (for `int.MinValue / -1`) outside the int range. */
  function ParseHeader(lines: seq<string>): (r: Result<Header, LoadError>)
    ensures r.Success? ==> 3 <= |lines| && r.value.cellSize != 0
    ensures r.Success? ==> IsLength(CSharpDiv(r.value.width, r.value.cellSize)) && IsLength(CSharpDiv(r.value.height, r.value.cellSize))
    ensures r.Success? ==>
      HeaderValue(lines[0]) == Success(r.value.width) &&
      HeaderValue(lines[1]) == Success(r.value.height) &&
      HeaderValue(lines[2]) == Success(r.value.cellSize)
    ensures |lines| < 3 ==> r.Failure?
    ensures 3 <= |lines| && HeaderValue(lines[0]).Success? && HeaderValue(lines[1]).Success? &&
            HeaderValue(lines[2]).Success? ==>
      var width, height, cellSize := HeaderValue(lines[0]).value, HeaderValue(lines[1]).value, HeaderValue(lines[2]).value;
      (cellSize == 0 ==> r == Failure(DivideByZero)) &&
      (cellSize != 0 ==> (r.Success? <==> IsLength(CSharpDiv(width, cellSize)) && IsLength(CSharpDiv(height, cellSize)))) &&
      (cellSize != 0 && r.Failure? ==> r.error == Overflow)
  {
    if |lines| < 1 then Failure(IndexOutOfRange) else
    var width :- HeaderValue(lines[0]);
    if |lines| < 2 then Failure(IndexOutOfRange) else
    var height :- HeaderValue(lines[1]);
    if |lines| < 3 then Failure(IndexOutOfRange) else
    var cellSize :- HeaderValue(lines[2]);
    if cellSize == 0 then Failure(DivideByZero)
    else if !IsLength(CSharpDiv(width, cellSize)) || !IsLength(CSharpDiv(height, cellSize)) then Failure(Overflow)
    else Success(Header(width, height, cellSize))
  }

  /** The grid whose column x, row y is live when character x of line 3 + y is '*'. */
  function GridOfLines(lines: seq<string>, columns: nat, rows: nat): (g: Grid)
    requires RowsPresent(lines, columns, rows)
    ensures g.Valid() && g.columns == columns && g.rows == rows
    ensures forall x, y :: 0 <= x < columns && 0 <= y < rows ==> (g.alive[x][y] <==> lines[3 + y][x] == '*')
  {
    Grid(columns, rows,
      seq(columns, x requires 0 <= x < columns =>
        seq(rows, y requires 0 <= y < rows => lines[3 + y][x] == '*')))
  }

  /** The board `LoadFromTxt` builds from `lines`, or the exception it raises. */
  function ParseLines(lines: seq<string>): (r: Result<Loaded, LoadError>)
    ensures r.Success? ==> r.value.grid.Valid() && r.value.cellSize != 0
    ensures r.Success? ==> RowsPresent(lines, r.value.grid.columns, r.value.grid.rows)
    ensures r.Success? ==> forall x, y :: 0 <= x < r.value.grid.columns && 0 <= y < r.value.grid.rows ==>
      (r.value.grid.alive[x][y] <==> lines[3 + y][x] == '*')
    ensures ParseHeader(lines).Failure? ==> r == Failure(ParseHeader(lines).error)
    ensures ParseHeader(lines).Success? && r.Success? ==>
      var h := ParseHeader(lines).value;
      r.value.cellSize == h.cellSize &&
      r.value.grid.columns == CSharpDiv(h.width, h.cellSize) && r.value.grid.rows == CSharpDiv(h.height, h.cellSize)
    ensures ParseHeader(lines).Success? ==>
      var h := ParseHeader(lines).value;
      (r.Success? <==> RowsPresent(lines, CSharpDiv(h.width, h.cellSize), CSharpDiv(h.height, h.cellSize))) &&
      (r.Failure? ==> r.error == IndexOutOfRange)
  {
    var header :- ParseHeader(lines);
    var columns := CSharpDiv(header.width, header.cellSize);
    var rows := CSharpDiv(header.height, header.cellSize);
    if !RowsPresent(lines, columns, rows) then Failure(IndexOutOfRange)
    else Success(Loaded(header.cellSize, GridOfLines(lines, columns, rows)))
  }

  /** Each saved header line reads back as the value it was written with. */
  lemma SavedHeaderValues(g: Grid, cellSize: int)
    requires g.Valid() && IsInt32(g.columns * cellSize) && IsInt32(g.rows * cellSize) && IsInt32(cellSize)
    ensures |SaveLines(g, cellSize)| >= 3
    ensures HeaderValue(SaveLines(g, cellSize)[0]) == Success(g.columns * cellSize)
    ensures HeaderValue(SaveLines(g, cellSize)[1]) == Success(g.rows * cellSize)
    ensures HeaderValue(SaveLines(g, cellSize)[2]) == Success(cellSize)
  {
    HeaderOf("Width", g.columns * cellSize);
    HeaderOf("Height", g.rows * cellSize);
    HeaderOf("CellSize", cellSize);
    assert "Width=" == "Width" + "=" && "Height=" == "Height" + "=" && "CellSize=" == "CellSize" + "=";
  }

  /** The saved headers read back as the board's width, height and cell size. */
  lemma SavedHeader(g: Grid, cellSize: int)
    requires g.Valid() && cellSize != 0 && IsLength(g.columns) && IsLength(g.rows)
    requires IsInt32(g.columns * cellSize) && IsInt32(g.rows * cellSize) && IsInt32(cellSize)
    ensures ParseHeader(SaveLines(g, cellSize)) == Success(Header(g.columns * cellSize, g.rows * cellSize, cellSize))
    ensures CSharpDiv(g.columns * cellSize, cellSize) == g.columns && CSharpDiv(g.rows * cellSize, cellSize) == g.rows
  {
    SavedHeaderValues(g, cellSize);
    CSharpDivMul(g.columns, cellSize);
    CSharpDivMul(g.rows, cellSize);
  }

  /** Loading what was saved gives back the cell size and every flag, as long
      as the three header values are ints (they are for any board). */
  lemma TextRoundTrip(g: Grid, cellSize: int)
    requires g.Valid() && cellSize != 0 && IsLength(g.columns) && IsLength(g.rows)
    requires IsInt32(g.columns * cellSize) && IsInt32(g.rows * cellSize) && IsInt32(cellSize)
    ensures ParseLines(SaveLines(g, cellSize)) == Success(Loaded(cellSize, g))
  {
    var lines := SaveLines(g, cellSize);
    SavedHeader(g, cellSize);
    assert RowsPresent(lines, g.columns, g.rows) by {
      forall i | 3 <= i < 3 + g.rows
        ensures |lines[i]| >= g.columns
      {
        assert lines[3 + (i - 3)] == RowLine(g, i - 3);
      }
    }
    var r := ParseLines(lines);
    assert r.Success? && r.value.cellSize == cellSize;
    assert r.value.grid.columns == g.columns && r.value.grid.rows == g.rows;
    forall x, y | 0 <= x < g.columns && 0 <= y < g.rows
      ensures r.value.grid.alive[x][y] == g.alive[x][y]
    {
      assert lines[3 + y] == RowLine(g, y);
    }
    GridExtensionality(r.value.grid, g);
  }
}
