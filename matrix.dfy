/** The integer matrix kernel of lab4sem/6 (Program.cs): the product of two `int[,]`
    matrices with C#'s wrapping 32-bit arithmetic, matrices generated from a rule, and the
    text format the program writes and reads, one line of space-separated numbers per row. */
module Matrix {
  import opened Text

  /** C#'s `int`. */
  newtype int32 = x: int | -0x8000_0000 <= x < 0x8000_0000

  const TwoTo32: int := 0x1_0000_0000

  /** The `int` that unchecked C# arithmetic leaves for the mathematical value `x`: the one
      congruent to `x` modulo 2^32. */
  function Wrap32(x: int): (r: int32)
    ensures (r as int - x) % TwoTo32 == 0
  {
    var m := x % TwoTo32;
    if m < 0x8000_0000 then m as int32 else (m - TwoTo32) as int32
  }

  /** Values congruent modulo 2^32 wrap to the same `int`. */
  lemma Wrap32Congruent(x: int, y: int)
    requires (x - y) % TwoTo32 == 0
    ensures Wrap32(x) == Wrap32(y)
  {
    var k := (x - y) / TwoTo32;
    assert x == y + k * TwoTo32;
    assert x % TwoTo32 == y % TwoTo32;
  }

  /** A value that fits in an `int` is left alone. */
  lemma Wrap32InRange(x: int)
    requires -0x8000_0000 <= x < 0x8000_0000
    ensures Wrap32(x) as int == x
  {
    var r := Wrap32(x) as int;
    var k := (r - x) / TwoTo32;
    assert r - x == k * TwoTo32;
  }

  /** Wrapping the operands of an addition does not change the wrapped sum. */
  lemma Wrap32Add(x: int, y: int, z: int)
    requires (x - y) % TwoTo32 == 0
    ensures Wrap32(x + Wrap32(z) as int) == Wrap32(y + z)
  {
    var w := Wrap32(z) as int;
    var k1 := (x - y) / TwoTo32;
    var k2 := (w - z) / TwoTo32;
    assert x - y == k1 * TwoTo32 && w - z == k2 * TwoTo32;
    assert (x + w) - (y + z) == (k1 + k2) * TwoTo32;
    Wrap32Congruent(x + w, y + z);
  }

  /** Adding the wrapped value of `z` to the wrapped value of `y` wraps to `y + z`. */
  lemma Wrap32Step(x: int32, y: int, z: int)
    requires x == Wrap32(y)
    ensures Wrap32(x as int + Wrap32(z) as int) == Wrap32(y + z)
  {
    Wrap32Add(x as int, y, z);
  }

  /** `sum + x * y` as C#'s unchecked `int` arithmetic computes it: the product wraps, then
      the sum wraps. */
  function MulAdd(sum: int32, x: int32, y: int32): (r: int32)
  {
    Wrap32(sum as int + Wrap32(x as int * y as int) as int)
  }

  /** A matrix as its rows. */
  type Mat = seq<seq<int32>>

  /** `m` has `rows` rows of `cols` cells each. */
  predicate Rect(m: Mat, rows: nat, cols: nat) {
    |m| == rows && forall i :: 0 <= i < rows ==> |m[i]| == cols
  }

  /** The cells of a two-dimensional array, row by row. */
  function Cells(a: array2<int32>): (m: Mat)
    reads a
    ensures Rect(m, a.Length0, a.Length1)
    ensures forall i, j :: 0 <= i < a.Length0 && 0 <= j < a.Length1 ==> m[i][j] == a[i, j]
  {
    seq(a.Length0, i reads a => seq(a.Length1, j reads a =>
      if 0 <= i < a.Length0 && 0 <= j < a.Length1 then a[i, j] else 0))
  }

  /** An array whose cells agree with a matrix of its shape holds that matrix. */
  lemma CellsAre(a: array2<int32>, m: Mat)
    requires Rect(m, a.Length0, a.Length1)
    requires forall i, j :: 0 <= i < a.Length0 && 0 <= j < a.Length1 ==> a[i, j] == m[i][j]
    ensures Cells(a) == m
  {
    assert forall i :: 0 <= i < a.Length0 ==> Cells(a)[i] == m[i];
  }

  /** What can go wrong: the dimension check of the product, an index past the end of an
      array, `int.Parse` on text that is not a number or whose value does not fit, and a
      negative array size. */
  datatype MatrixError =
    | InvalidOperation(message: string)
    | IndexOutOfRange
    | FormatError
    | OverflowError

  datatype Result<T> = Success(value: T) | Failure(error: MatrixError)

  // ---- the product ----

  /** The exact sum of the first `k` products of row `i` of `a` with column `j` of `b`. */
  function Sum(a: Mat, b: Mat, i: nat, j: nat, k: nat): (r: int)
    requires i < |a| && k <= |a[i]| && k <= |b|
    requires forall r :: 0 <= r < k ==> j < |b[r]|
  {
    if k == 0 then 0 else Sum(a, b, i, j, k - 1) + a[i][k - 1] as int * b[k - 1][j] as int
  }

  /** The product C# computes: every cell is the row-by-column sum, wrapped to an `int`. */
  function Product(a: Mat, b: Mat, n: nat, p: nat): (c: Mat)
    requires Rect(a, |a|, n) && Rect(b, n, p)
    ensures Rect(c, |a|, p)
  {
    seq(|a|, i requires 0 <= i < |a| =>
      seq(p, j requires 0 <= j < p => Wrap32(Sum(a, b, i, j, n))))
  }

  const IncompatibleMessage: string := "Размеры матриц несовместимы для умножения."

  /** The inner loop of `MultiplyMatricesParallel`: the sum for cell (i, j), accumulated in
      an `int` that wraps on every product and every addition as unchecked C# arithmetic does. */
  method CellSum(m1: array2<int32>, m2: array2<int32>, i: nat, j: nat) returns (sum: int32)
    requires m1.Length1 == m2.Length0 && i < m1.Length0 && j < m2.Length1
    ensures sum == Wrap32(Sum(Cells(m1), Cells(m2), i, j, m1.Length1))
  {
    sum := 0;
    for k := 0 to m1.Length1
      invariant sum == Wrap32(Sum(Cells(m1), Cells(m2), i, j, k))
    {
      CellSumStep(m1, m2, i, j, k, sum);
      sum := MulAdd(sum, m1[i, k], m2[k, j]);
    }
  }

  /** One more term of the sum, wrapped as the accumulator wraps it. */
  lemma CellSumStep(m1: array2<int32>, m2: array2<int32>, i: nat, j: nat, k: nat, sum: int32)
    requires m1.Length1 == m2.Length0 && i < m1.Length0 && j < m2.Length1 && k < m1.Length1
    requires sum == Wrap32(Sum(Cells(m1), Cells(m2), i, j, k))
    ensures MulAdd(sum, m1[i, k], m2[k, j]) == Wrap32(Sum(Cells(m1), Cells(m2), i, j, k + 1))
  {
    var a, b := Cells(m1), Cells(m2);
    var product := m1[i, k] as int * m2[k, j] as int;
    assert Sum(a, b, i, j, k + 1) == Sum(a, b, i, j, k) + product;
    Wrap32Step(sum, Sum(a, b, i, j, k), product);
  }

  /** The body of the parallel loop of `MultiplyMatricesParallel`: fills row `i` of `result`
      and nothing else. */
  method ProductRow(m1: array2<int32>, m2: array2<int32>, result: array2<int32>, i: nat)
    requires m1.Length1 == m2.Length0 && i < m1.Length0
    requires result.Length0 == m1.Length0 && result.Length1 == m2.Length1
    requires result != m1 && result != m2
    modifies result
    ensures forall j :: 0 <= j < result.Length1 ==>
              result[i, j] == Wrap32(Sum(Cells(m1), Cells(m2), i, j, m1.Length1))
    ensures forall i', j :: 0 <= i' < result.Length0 && i' != i && 0 <= j < result.Length1 ==>
              result[i', j] == old(result[i', j])
  {
    ghost var a, b := Cells(m1), Cells(m2);
    for j := 0 to result.Length1
      invariant Cells(m1) == a && Cells(m2) == b
      invariant forall j' :: 0 <= j' < j ==> result[i, j'] == Wrap32(Sum(a, b, i, j', m1.Length1))
      invariant forall i', j' :: 0 <= i' < result.Length0 && i' != i && 0 <= j' < result.Length1 ==>
                  result[i', j'] == old(result[i', j'])
    {
      var sum := CellSum(m1, m2, i, j);
      result[i, j] := sum;
    }
  }

  /** `MultiplyMatricesParallel`, its rows computed one after another (they are
      independent). */
  method MultiplyMatricesParallel(m1: array2<int32>, m2: array2<int32>) returns (r: Result<array2<int32>>)
    ensures r.Failure? <==> m1.Length1 != m2.Length0
    ensures r.Failure? ==> r.error == InvalidOperation(IncompatibleMessage)
    ensures r.Success? ==> fresh(r.value) && Cells(r.value) == Product(Cells(m1), Cells(m2), m1.Length1, m2.Length1)
  {
    var rows1, cols1, rows2, cols2 := m1.Length0, m1.Length1, m2.Length0, m2.Length1;
    if cols1 != rows2 {
      return Failure(InvalidOperation(IncompatibleMessage));
    }
    var result := new int32[rows1, cols2];
    for i := 0 to rows1
      invariant forall i', j' :: 0 <= i' < i && 0 <= j' < cols2 ==>
                  result[i', j'] == Wrap32(Sum(Cells(m1), Cells(m2), i', j', cols1))
    {
      ProductRow(m1, m2, result, i);
    }
    ghost var c := Product(Cells(m1), Cells(m2), cols1, cols2);
    assert forall i :: 0 <= i < rows1 ==> Cells(result)[i] == c[i];
    return Success(result);
  }

  /** Where no row-by-column sum leaves the `int` range, the product is exact. */
  lemma ProductExact(a: Mat, b: Mat, n: nat, p: nat, i: nat, j: nat)
    requires Rect(a, |a|, n) && Rect(b, n, p) && i < |a| && j < p
    requires -0x8000_0000 <= Sum(a, b, i, j, n) < 0x8000_0000
    ensures Product(a, b, n, p)[i][j] as int == Sum(a, b, i, j, n)
  {
    Wrap32InRange(Sum(a, b, i, j, n));
  }

  /** The `n` by `n` identity matrix. */
  function Identity(n: nat): (m: Mat)
    ensures Rect(m, n, n)
  {
    seq(n, i requires 0 <= i < n => seq(n, j requires 0 <= j < n => if i == j then 1 as int32 else 0))
  }

  /** Against a column of the identity, a row sum picks out one cell. */
  lemma {:induction false} SumIdentity(a: Mat, n: nat, i: nat, j: nat, k: nat)
    requires Rect(a, |a|, n) && i < |a| && j < n && k <= n
    ensures Sum(a, Identity(n), i, j, k) == if j < k then a[i][j] as int else 0
  {
    if k > 0 {
      SumIdentity(a, n, i, j, k - 1);
    }
  }

  /** Multiplying by the identity gives the matrix back. */
  lemma ProductIdentity(a: Mat, n: nat)
    requires Rect(a, |a|, n)
    ensures Product(a, Identity(n), n, n) == a
  {
    var c := Product(a, Identity(n), n, n);
    forall i, j | 0 <= i < |a| && 0 <= j < n
      ensures c[i][j] == a[i][j]
    {
      SumIdentity(a, n, i, j, n);
      Wrap32InRange(a[i][j] as int);
    }
    assert forall i :: 0 <= i < |a| ==> c[i] == a[i];
  }

  // ---- generation ----

  /** `GenerateMatrixByRule`: cell (i, j) is `rule(i, j)`. A negative size makes the array
      allocation throw. */
  method GenerateMatrixByRule(rows: int32, cols: int32, rule: (int32, int32) -> int32)
    returns (r: Result<array2<int32>>)
    ensures r.Failure? <==> rows < 0 || cols < 0
    ensures r.Failure? ==> r.error == OverflowError
    ensures r.Success? ==> fresh(r.value) && r.value.Length0 == rows as int && r.value.Length1 == cols as int
    ensures r.Success? ==> forall i, j :: 0 <= i < rows as int && 0 <= j < cols as int ==>
                             r.value[i, j] == rule(i as int32, j as int32)
  {
    if rows < 0 || cols < 0 {
      return Failure(OverflowError);
    }
    var matrix := new int32[rows as int, cols as int];
    for i := 0 to rows as int
      invariant forall i', j' :: 0 <= i' < i && 0 <= j' < cols as int ==>
                  matrix[i', j'] == rule(i' as int32, j' as int32)
    {
      for j := 0 to cols as int
        invariant forall i', j' :: 0 <= i' < i && 0 <= j' < cols as int ==>
                    matrix[i', j'] == rule(i' as int32, j' as int32)
        invariant forall j' :: 0 <= j' < j ==> matrix[i, j'] == rule(i as int32, j' as int32)
      {
        matrix[i, j] := rule(i as int32, j as int32);
      }
    }
    return Success(matrix);
  }

  // ---- decimal numbers ----

  predicate IsDigitString(s: string) {
    forall i :: 0 <= i < |s| ==> IsDigit(s[i])
  }

  function DigitChar(d: nat): (c: char)
    requires d < 10
    ensures IsDigit(c) && c as int - '0' as int == d
  {
    ('0' as int + d) as char
  }

  /** The decimal digits of `n`, most significant first, without leading zeros. */
  function Digits(n: nat): (s: string)
    ensures |s| >= 1 && IsDigitString(s)
    ensures s[0] != '0' || n == 0
  {
    if n < 10 then [DigitChar(n)] else Digits(n / 10) + [DigitChar(n % 10)]
  }

  /** The value of a string of decimal digits. */
  function DigitsValue(s: string): nat
    requires IsDigitString(s)
  {
    if s == [] then 0 else 10 * DigitsValue(s[..|s| - 1]) + (s[|s| - 1] as int - '0' as int)
  }

  /** Reading the digits of a number gives back the number. */
  lemma {:induction false} DigitsValueOfDigits(n: nat)
    ensures DigitsValue(Digits(n)) == n
  {
    if n >= 10 {
      DigitsValueOfDigits(n / 10);
      var s := Digits(n);
      assert s[..|s| - 1] == Digits(n / 10);
    }
  }

  /** `int.ToString()`: a minus sign for negative numbers, then the digits. */
  function DecimalString(x: int32): (s: string)
    ensures |s| >= 1 && (s[0] == '-' <==> x < 0)
    ensures forall i :: 0 <= i < |s| ==> IsDigit(s[i]) || (i == 0 && x < 0)
  {
    if x < 0 then "-" + Digits(-(x as int)) else Digits(x as int)
  }

  /** The white space that `int.Parse` skips at both ends (tab to carriage return, and space). */
  predicate IsNumberWhite(c: char) {
    c == ' ' || '\t' <= c <= '\r'
  }

  /** `int.Parse(s)`: white space at either end is skipped; what is left is an optional `+`
      or `-` followed by at least one decimal digit (a format error otherwise), and an
      overflow error when the value does not fit in an `int`. */
  function ParseInt32(s: string): (r: Result<int32>)
    ensures r.Failure? ==> r.error == FormatError || r.error == OverflowError
  {
    if s != [] && IsNumberWhite(s[0]) then ParseInt32(s[1..])
    else if s != [] && IsNumberWhite(s[|s| - 1]) then ParseInt32(s[..|s| - 1])
    else ParseNumber(s)
  }

  /** `int.Parse` on text with no white space at its ends. */
  function ParseNumber(t: string): (r: Result<int32>)
    ensures t == [] ==> r == Failure(FormatError)
    ensures r.Failure? ==> r.error == FormatError || r.error == OverflowError
  {
    var negative := |t| > 0 && t[0] == '-';
    var digits := if |t| > 0 && (t[0] == '-' || t[0] == '+') then t[1..] else t;
    if digits == [] || !IsDigitString(digits) then Failure(FormatError)
    else
      var v: int := if negative then -(DigitsValue(digits) as int) else DigitsValue(digits);
      if -0x8000_0000 <= v < 0x8000_0000 then Success(v as int32) else Failure(OverflowError)
  }

  /** Parsing what `ToString` writes gives back the number. */
  lemma ParseDecimalString(x: int32)
    ensures ParseInt32(DecimalString(x)) == Success(x)
  {
    var s := DecimalString(x);
    assert !IsNumberWhite(s[0]) && !IsNumberWhite(s[|s| - 1]);
    if x < 0 {
      var d := Digits(-(x as int));
      DigitsValueOfDigits(-(x as int));
      assert s[1..] == d;
      assert DigitsValue(d) == -(x as int);
    } else {
      DigitsValueOfDigits(x as int);
      assert s[0] != '-' && s[0] != '+';
    }
  }

  /** A decimal string has no space in it. */
  lemma DecimalStringFree(x: int32)
    ensures Free(DecimalString(x), {' '})
  {
    var s := DecimalString(x);
    forall i | 0 <= i < |s| ensures s[i] != ' ' {
      if x < 0 && i > 0 {
        assert s[i] == Digits(-(x as int))[i - 1];
      }
    }
  }

  // ---- writing ----

  /** The text of each cell of a row. */
  function Fields(row: seq<int32>): (fields: seq<string>)
    ensures |fields| == |row|
  {
    seq(|row|, k requires 0 <= k < |row| => DecimalString(row[k]))
  }

  /** One written line: the cells' decimal forms with one space between neighbours. */
  function FormatRow(row: seq<int32>): string
  {
    Join(Fields(row), ' ')
  }

  /** The written lines, one per row. */
  function FormatMatrix(m: Mat): (lines: seq<string>)
    ensures |lines| == |m|
  {
    seq(|m|, i requires 0 <= i < |m| => FormatRow(m[i]))
  }

  /** The inner loop of `WriteMatrixToFileAsync`: the line for row `i`, built as the source
      builds it, each cell followed by a space except the last. */
  method RowLine(matrix: array2<int32>, i: nat) returns (line: string)
    requires i < matrix.Length0
    ensures line == FormatRow(Cells(matrix)[i])
  {
    var colCount := matrix.Length1;
    ghost var fields := Fields(Cells(matrix)[i]);
    line := "";
    for j := 0 to colCount
      invariant j == 0 ==> line == ""
      invariant 0 < j ==> line == Join(fields[..j], ' ') + (if j < colCount then " " else "")
    {
      if j > 0 {
        JoinSnoc(fields[..j], fields[j], ' ');
      }
      TakeSnoc(fields, j + 1);
      line := line + DecimalString(matrix[i, j]) + (if j == colCount - 1 then "" else " ");
    }
    TakeAll(fields);
  }

  /** The lines `WriteMatrixToFileAsync` writes, one per row. */
  method WriteMatrix(matrix: array2<int32>) returns (lines: seq<string>)
    ensures lines == FormatMatrix(Cells(matrix))
  {
    ghost var m := Cells(matrix);
    lines := [];
    for i := 0 to matrix.Length0
      invariant lines == FormatMatrix(m)[..i]
    {
      var line := RowLine(matrix, i);
      TakeSnoc(FormatMatrix(m), i + 1);
      lines := lines + [line];
    }
    TakeAll(FormatMatrix(m));
  }

  // ---- reading ----

  /** Field `j` of a line as a number: an index error when the line has no such field. */
  function ParseField(elements: seq<string>, j: nat): Result<int32>
  {
    if j < |elements| then ParseInt32(elements[j]) else Failure(IndexOutOfRange)
  }

  /** The first `n` fields of a line as numbers; the first field that is missing or does
      not parse decides the error. Fields after the `n`th are not looked at. */
  function ParseFields(elements: seq<string>, n: nat): (r: Result<seq<int32>>)
    ensures r.Success? ==> |r.value| == n
  {
    if n == 0 then Success([])
    else
      match ParseFields(elements, n - 1)
      case Failure(e) => Failure(e)
      case Success(vs) =>
        match ParseField(elements, n - 1)
        case Failure(e) => Failure(e)
        case Success(v) => Success(vs + [v])
  }

  /** The rows of `lines`, `cols` fields each; the first failing row decides the error. */
  function ParseRows(lines: seq<string>, cols: nat): (r: Result<Mat>)
    ensures r.Success? ==> Rect(r.value, |lines|, cols)
  {
    if lines == [] then Success([])
    else
      match ParseRows(lines[..|lines| - 1], cols)
      case Failure(e) => Failure(e)
      case Success(rows) =>
        match ParseFields(Split(lines[|lines| - 1], ' '), cols)
        case Failure(e) => Failure(e)
        case Success(row) => Success(rows + [row])
  }

  /** The matrix `ReadMatrixFromFileAsync` reads: as many rows as lines and as many columns as
      the first line has space-separated fields; no lines at all is an index error. */
  function ParseMatrix(lines: seq<string>): (r: Result<Mat>)
    ensures r.Success? ==> |lines| > 0 && Rect(r.value, |lines|, |Split(lines[0], ' ')|)
  {
    if lines == [] then Failure(IndexOutOfRange) else ParseRows(lines, |Split(lines[0], ' ')|)
  }

  /** Once some field fails, later fields do not change the error. */
  lemma {:induction false} ParseFieldsFailed(elements: seq<string>, j: nat, n: nat)
    requires j <= n && ParseFields(elements, j).Failure?
    ensures ParseFields(elements, n) == ParseFields(elements, j)
    decreases n - j
  {
    if j < n {
      ParseFieldsFailed(elements, j, n - 1);
    }
  }

  /** Once some row fails, later rows do not change the error. */
  lemma {:induction false} ParseRowsFailed(lines: seq<string>, cols: nat, i: nat)
    requires i <= |lines| && ParseRows(lines[..i], cols).Failure?
    ensures ParseRows(lines, cols) == ParseRows(lines[..i], cols)
    decreases |lines| - i
  {
    if i < |lines| {
      PrefixOfPrefix(lines, i, |lines| - 1);
      ParseRowsFailed(lines[..|lines| - 1], cols, i);
    } else {
      TakeAll(lines);
    }
  }

  /** A field that parses extends the parsed prefix of a line by its value. */
  lemma ParseFieldsNext(elements: seq<string>, j: nat, vs: seq<int32>, v: int32)
    requires ParseFields(elements, j) == Success(vs) && ParseField(elements, j) == Success(v)
    ensures ParseFields(elements, j + 1) == Success(vs + [v])
  {
  }

  /** The first field that is missing or does not parse decides the error of the line. */
  lemma ParseFieldsFailAt(elements: seq<string>, j: nat, n: nat, e: MatrixError)
    requires j < n && ParseFields(elements, j).Success? && ParseField(elements, j) == Failure(e)
    ensures ParseFields(elements, n) == Failure(e)
  {
    ParseFieldsFailed(elements, j + 1, n);
  }

  /** A line that parses extends the parsed rows by its row. */
  lemma ParseRowsNext(lines: seq<string>, cols: nat, i: nat, rows: Mat, row: seq<int32>)
    requires i < |lines| && ParseRows(lines[..i], cols) == Success(rows)
    requires ParseFields(Split(lines[i], ' '), cols) == Success(row)
    ensures ParseRows(lines[..i + 1], cols) == Success(rows + [row])
  {
    PrefixOfPrefix(lines, i, i + 1);
    ParseRowsStep(lines[..i + 1], cols, rows, row);
  }

  /** The first line that fails decides the error of the whole read. */
  lemma ParseRowsFailAt(lines: seq<string>, cols: nat, i: nat, e: MatrixError)
    requires i < |lines| && ParseRows(lines[..i], cols).Success?
    requires ParseFields(Split(lines[i], ' '), cols) == Failure(e)
    ensures ParseRows(lines, cols) == Failure(e)
  {
    PrefixOfPrefix(lines, i, i + 1);
    assert ParseRows(lines[..i + 1], cols) == Failure(e);
    ParseRowsFailed(lines, cols, i + 1);
  }

  /** The inner loop of `ReadMatrixFromFileAsync`: parses the fields of one line into row `i`
      of `matrix`, stopping at the first field that is missing or does not parse. Other rows
      are left alone. */
  method ReadRow(matrix: array2<int32>, i: nat, elements: seq<string>) returns (error: Option<MatrixError>)
    requires i < matrix.Length0
    modifies matrix
    ensures error.None? <==> ParseFields(elements, matrix.Length1).Success?
    ensures error.Some? ==> error.value == ParseFields(elements, matrix.Length1).error
    ensures error.None? ==> forall j :: 0 <= j < matrix.Length1 ==>
                              matrix[i, j] == ParseFields(elements, matrix.Length1).value[j]
    ensures forall i', j :: 0 <= i' < matrix.Length0 && i' != i && 0 <= j < matrix.Length1 ==>
              matrix[i', j] == old(matrix[i', j])
  {
    var colCount := matrix.Length1;
    ghost var row: seq<int32> := [];
    for j := 0 to colCount
      invariant ParseFields(elements, j) == Success(row)
      invariant forall j' :: 0 <= j' < j ==> matrix[i, j'] == row[j']
      invariant forall i', j' :: 0 <= i' < matrix.Length0 && i' != i && 0 <= j' < colCount ==>
                  matrix[i', j'] == old(matrix[i', j'])
    {
      var v := ParseField(elements, j);
      if v.Failure? {
        ParseFieldsFailAt(elements, j, colCount, v.error);
        return Some(v.error);
      }
      ParseFieldsNext(elements, j, row, v.value);
      matrix[i, j] := v.value;
      row := row + [v.value];
    }
    return None;
  }

  /** The outer loop of `ReadMatrixFromFileAsync`: fills the rows one line at a time and
      stops at the first line that fails. */
  method ReadRows(matrix: array2<int32>, lines: seq<string>) returns (error: Option<MatrixError>)
    requires matrix.Length0 == |lines|
    modifies matrix
    ensures error.None? <==> ParseRows(lines, matrix.Length1).Success?
    ensures error.Some? ==> error.value == ParseRows(lines, matrix.Length1).error
    ensures error.None? ==> forall i, j :: 0 <= i < matrix.Length0 && 0 <= j < matrix.Length1 ==>
                              matrix[i, j] == ParseRows(lines, matrix.Length1).value[i][j]
  {
    var colCount := matrix.Length1;
    ghost var rows: Mat := [];
    for i := 0 to |lines|
      invariant ParseRows(lines[..i], colCount) == Success(rows)
      invariant forall i', j' :: 0 <= i' < i && 0 <= j' < colCount ==> matrix[i', j'] == rows[i'][j']
    {
      var rowError := ReadRow(matrix, i, Split(lines[i], ' '));
      if rowError.Some? {
        ParseRowsFailAt(lines, colCount, i, rowError.value);
        return rowError;
      }
      ghost var row := ParseFields(Split(lines[i], ' '), colCount).value;
      ParseRowsNext(lines, colCount, i, rows, row);
      rows := rows + [row];
    }
    TakeAll(lines);
    return None;
  }

  /** `ReadMatrixFromFileAsync` on the lines of the file: sizes the matrix by the line count
      and the first line's fields, then fills it row by row, stopping at the first
      exception. */
  method ReadMatrix(lines: seq<string>) returns (r: Result<array2<int32>>)
    ensures r.Failure? <==> ParseMatrix(lines).Failure?
    ensures r.Failure? ==> r.error == ParseMatrix(lines).error
    ensures r.Success? ==> fresh(r.value) && Cells(r.value) == ParseMatrix(lines).value
  {
    if |lines| == 0 {
      return Failure(IndexOutOfRange);
    }
    var colCount := |Split(lines[0], ' ')|;
    var matrix := new int32[|lines|, colCount];
    var error := ReadRows(matrix, lines);
    if error.Some? {
      return Failure(error.value);
    }
    CellsAre(matrix, ParseMatrix(lines).value);
    return Success(matrix);
  }

  // ---- properties of the format ----

  /** Two lines whose first `n` fields parse alike parse alike as a whole. */
  lemma {:induction false} ParseFieldsAgree(a: seq<string>, b: seq<string>, n: nat)
    requires forall j :: 0 <= j < n ==> ParseField(a, j) == ParseField(b, j)
    ensures ParseFields(a, n) == ParseFields(b, n)
  {
    if n > 0 {
      ParseFieldsAgree(a, b, n - 1);
    }
  }

  /** Fields after the first `n` are ignored. */
  lemma ParseFieldsIgnoresExtra(elements: seq<string>, n: nat)
    requires n <= |elements|
    ensures ParseFields(elements, n) == ParseFields(elements[..n], n)
  {
    forall j | 0 <= j < n ensures ParseField(elements, j) == ParseField(elements[..n], j) {
      assert elements[..n][j] == elements[j];
    }
    ParseFieldsAgree(elements, elements[..n], n);
  }

  /** A line with fewer fields than the first one fails with an index error, unless one of
      its fields already fails to parse. */
  lemma {:induction false} ParseFieldsTooFew(elements: seq<string>, n: nat)
    requires |elements| < n
    ensures ParseFields(elements, n).Failure?
    ensures ParseFields(elements, |elements|).Success? ==> ParseFields(elements, n) == Failure(IndexOutOfRange)
  {
    if ParseFields(elements, |elements|).Success? {
      assert ParseFields(elements, |elements| + 1) == Failure(IndexOutOfRange);
      ParseFieldsFailed(elements, |elements| + 1, n);
    } else {
      ParseFieldsFailed(elements, |elements|, n);
    }
  }

  /** Fields that each parse to their value read back, as a whole, as those values. */
  lemma {:induction false} ParseFieldsAll(elements: seq<string>, vs: seq<int32>, n: nat)
    requires n <= |vs|
    requires forall j :: 0 <= j < n ==> ParseField(elements, j) == Success(vs[j])
    ensures ParseFields(elements, n) == Success(vs[..n])
  {
    if n > 0 {
      ParseFieldsAll(elements, vs, n - 1);
      TakeSnoc(vs, n);
    }
  }

  /** The fields of a written row read back as the row. */
  lemma ParseFieldsOfRow(row: seq<int32>)
    ensures ParseFields(Fields(row), |row|) == Success(row)
  {
    forall j | 0 <= j < |row| ensures ParseField(Fields(row), j) == Success(row[j]) {
      ParseFieldOfRow(row, j);
    }
    ParseFieldsAll(Fields(row), row, |row|);
    assert row[..|row|] == row;
  }

  /** Each written field reads back as its cell. */
  lemma ParseFieldOfRow(row: seq<int32>, j: nat)
    requires j < |row|
    ensures ParseField(Fields(row), j) == Success(row[j])
  {
    ParseDecimalString(row[j]);
  }

  /** A written line of at least one cell splits into its fields and reads back as the row. */
  lemma ParseFormattedRow(row: seq<int32>)
    requires |row| >= 1
    ensures Split(FormatRow(row), ' ') == Fields(row)
    ensures ParseFields(Split(FormatRow(row), ' '), |row|) == Success(row)
  {
    var fields := Fields(row);
    forall k | 0 <= k < |fields| ensures Free(fields[k], {' '}) {
      DecimalStringFree(row[k]);
    }
    SplitJoin(fields, ' ');
    ParseFieldsOfRow(row);
  }

  /** Lines that each parse to their row read back, as a whole, as those rows. */
  lemma {:induction false} ParseRowsAll(lines: seq<string>, cols: nat, m: Mat, k: nat)
    requires k <= |lines| && k <= |m|
    requires forall i :: 0 <= i < k ==> ParseFields(Split(lines[i], ' '), cols) == Success(m[i])
    ensures ParseRows(lines[..k], cols) == Success(m[..k])
  {
    if k > 0 {
      PrefixOfPrefix(lines, k - 1, k);
      ParseRowsAll(lines, cols, m, k - 1);
      ParseRowsStep(lines[..k], cols, m[..k - 1], m[k - 1]);
      TakeSnoc(m, k);
    }
  }

  /** One more line that parses extends the parsed rows by its row. */
  lemma ParseRowsStep(lines: seq<string>, cols: nat, rows: Mat, row: seq<int32>)
    requires lines != []
    requires ParseRows(lines[..|lines| - 1], cols) == Success(rows)
    requires ParseFields(Split(lines[|lines| - 1], ' '), cols) == Success(row)
    ensures ParseRows(lines, cols) == Success(rows + [row])
  {
  }

  /** The written lines of a matrix with at least one column read back as its rows. */
  lemma ParseRowsOfFormat(m: Mat, cols: nat)
    requires Rect(m, |m|, cols) && cols >= 1
    ensures ParseRows(FormatMatrix(m), cols) == Success(m)
  {
    var lines := FormatMatrix(m);
    forall i | 0 <= i < |m| ensures ParseFields(Split(lines[i], ' '), cols) == Success(m[i]) {
      ParseFormattedRow(m[i]);
    }
    ParseRowsAll(lines, cols, m, |m|);
    TakeAll(lines);
    TakeAll(m);
  }

  /** Writing a matrix with at least one row and one column and reading the lines back gives
      the matrix. */
  lemma WriteThenRead(m: Mat, cols: nat)
    requires Rect(m, |m|, cols) && |m| >= 1 && cols >= 1
    ensures ParseMatrix(FormatMatrix(m)) == Success(m)
  {
    var lines := FormatMatrix(m);
    ParseFormattedRow(m[0]);
    assert |Split(lines[0], ' ')| == cols;
    ParseRowsOfFormat(m, cols);
  }

  /** The round trip fails for a matrix with no rows (there is no first line to count the
      columns of) and for one with no columns (its empty lines read as one empty field). */
  lemma WriteThenReadDegenerate(m: Mat, cols: nat)
    requires Rect(m, |m|, cols) && (|m| == 0 || cols == 0)
    ensures |m| == 0 ==> ParseMatrix(FormatMatrix(m)) == Failure(IndexOutOfRange)
    ensures |m| >= 1 && cols == 0 ==> ParseMatrix(FormatMatrix(m)) == Failure(FormatError)
  {
    if |m| >= 1 && cols == 0 {
      var lines := FormatMatrix(m);
      assert lines[0] == "";
      assert Split("", ' ') == [""];
      assert ParseInt32("") == Failure(FormatError);
      assert ParseFields([""], 1) == Failure(FormatError);
      assert lines[..1] == [lines[0]];
      assert ParseRows(lines[..1], 1) == Failure(FormatError);
      ParseRowsFailed(lines, 1, 1);
    }
  }
}
