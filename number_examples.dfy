/**
 * The exporter's number and transformation formatting on the concrete cases
 * its unit tests check.
 */
module FormattingExamples {
  import opened NumberFormat
  import opened Transforms

  /** test_format_number: rounding to fewer places. */
  lemma FormatNumberTwoPlaces()
    ensures FormatNumber(3.14159, 2) == "3.14"
  {
    assert Rounded(3.14159, 2) == 314;
    FormatOfRounded(3.14159, 2, 314);
    PiTwoPlaces();
  }

  lemma PiTwoPlaces()
    ensures ScaledText(314, 2) == "3.14"
  {
    assert NatText(314) == "314";
    assert PaddedDigits(314, 2) == "314";
    assert StripTrailingZeros("14") == "14";
  }

  /** test_format_number: rounding a two-digit integer part to one place. */
  lemma FormatNumberOnePlace()
    ensures FormatNumber(30.12, 1) == "30.1"
  {
    assert Rounded(30.12, 1) == 301;
    FormatOfRounded(30.12, 1, 301);
    ThirtyOnePlace();
  }

  lemma ThirtyOnePlace()
    ensures ScaledText(301, 1) == "30.1"
  {
    assert NatText(301) == "301";
    assert PaddedDigits(301, 1) == "301";
    assert StripTrailingZeros("1") == "1";
  }

  /** test_format_number: precision 0 gives a bare integer, and 0.1 rounds to 0. */
  lemma FormatNumberZeroPlaces()
    ensures FormatNumber(3.14159, 0) == "3"
    ensures FormatNumber(0.0, 0) == "0"
    ensures FormatNumber(0.1, 0) == "0"
  {
  }

  /** test_format_number: more places than the number has add no trailing zeros. */
  lemma FormatNumberTenPlaces()
    ensures FormatNumber(3.14159, 10) == "3.14159"
  {
    PiRoundedTenPlaces();
    ScaledTextExtraPrecision(314159, 5, 5);
    PiFivePlaces();
  }

  lemma PiRoundedTenPlaces()
    ensures Rounded(3.14159, 10) == 314159 * Pow10(5)
  {
    assert Pow10(5) == 100000;
    assert Pow10(10) == 10000000000;
  }

  lemma PiFivePlaces()
    ensures ScaledText(314159, 5) == "3.14159"
  {
    assert NatText(314159) == "314159";
    assert PaddedDigits(314159, 5) == "314159";
    assert StripTrailingZeros("14159") == "14159";
  }

  /** A number of tenths prints with at most one decimal place, at every positive precision. */
  lemma FormatTenths(n: nat, precision: nat)
    requires precision >= 1
    ensures FormatNumber(n as real / 10.0, precision) == ScaledText(n, 1)
  {
    FormatTenthsAbove(n, precision - 1);
    SamePrecision(n as real / 10.0, 1 + (precision - 1), precision);
  }

  /** Proof helper: rewrites the precision argument between two spellings of one value. */
  lemma SamePrecision(x: real, p: nat, q: nat)
    requires p == q
    ensures FormatNumber(x, p) == FormatNumber(x, q)
  {
  }

  lemma FormatTenthsAbove(n: nat, k: nat)
    ensures FormatNumber(n as real / 10.0, 1 + k) == ScaledText(n, 1)
  {
    RoundedTenths(n, k);
    ScaledTextExtraPrecision(n, 1, k);
    FormatOfRounded(n as real / 10.0, 1 + k, n * Pow10(k));
  }

  lemma FormatOfRounded(x: real, precision: nat, r: int)
    requires Rounded(x, precision) == r
    ensures FormatNumber(x, precision) == ScaledText(r, precision)
  {
  }

  lemma RoundedTenths(n: nat, k: nat)
    ensures Rounded(n as real / 10.0, 1 + k) == n * Pow10(k)
  {
    ShiftedTenths(n, k);
    RoundWhole(n * Pow10(k));
  }

  lemma {:induction false} ShiftedTenths(n: nat, k: nat)
    ensures Shifted(n as real / 10.0, 1 + k) == (n * Pow10(k)) as real
  {
    if k > 0 {
      ShiftedTenths(n, k - 1);
      var p := Pow10(k - 1);
      assert Pow10(k) == 10 * p;
      assert (n * p) as real * 10.0 == (n * (10 * p)) as real;
    }
  }

  /** The text of w + d/10 for digits w and d: "w" when d is 0, else "w.d". */
  lemma TenthsText(w: nat, d: nat)
    requires w < 10 && d < 10
    ensures ScaledText(10 * w + d, 1) == if d == 0 then [DigitChar(w)] else [DigitChar(w), '.', DigitChar(d)]
  {
    PaddedTenths(w, d);
    TwoDigitParts(DigitChar(w), DigitChar(d));
  }

  lemma PaddedTenths(w: nat, d: nat)
    requires w < 10 && d < 10
    ensures PaddedDigits(10 * w + d, 1) == [DigitChar(w), DigitChar(d)]
  {
    var r := 10 * w + d;
    assert r / 10 == w && r % 10 == d;
    if w == 0 {
      assert NatText(r) == [DigitChar(d)];
      assert Zeros(1) == ['0'];
    } else {
      assert NatText(w) == [DigitChar(w)];
      assert NatText(r) == NatText(w) + [DigitChar(d)];
    }
  }

  lemma TwoDigitParts(a: char, b: char)
    ensures WholeDigits([a, b], 1) == [a]
    ensures FractionDigits([a, b], 1) == if b == '0' then [] else [b]
  {
    assert [a, b][1..] == [b];
    if b == '0' {
      StripAllZeros([b]);
    } else {
      assert StripTrailingZeros([b]) == [b];
    }
  }

  lemma WholeTenths()
    ensures ScaledText(0, 1) == "0" && ScaledText(10, 1) == "1" && ScaledText(20, 1) == "2"
  {
    TenthsText(0, 0);
    TenthsText(1, 0);
    TenthsText(2, 0);
  }

  lemma FractionTenthsLow()
    ensures ScaledText(1, 1) == "0.1" && ScaledText(11, 1) == "1.1" && ScaledText(21, 1) == "2.1"
  {
    TenthsText(0, 1);
    TenthsText(1, 1);
    TenthsText(2, 1);
  }

  lemma FractionTenthsMiddle()
    ensures ScaledText(2, 1) == "0.2" && ScaledText(12, 1) == "1.2" && ScaledText(22, 1) == "2.2"
  {
    TenthsText(0, 2);
    TenthsText(1, 2);
    TenthsText(2, 2);
  }

  lemma FractionTenthsHigh()
    ensures ScaledText(3, 1) == "0.3" && ScaledText(13, 1) == "1.3" && ScaledText(23, 1) == "2.3"
  {
    TenthsText(0, 3);
    TenthsText(1, 3);
    TenthsText(2, 3);
  }

  /** The matrix whose cell (row i, column j) is i + j / 10. */
  function CoordinateMatrix(): Matrix4
  {
    [[0.0, 0.1, 0.2, 0.3], [1.0, 1.1, 1.2, 1.3], [2.0, 2.1, 2.2, 2.3], [3.0, 3.1, 3.2, 3.3]]
  }

  /** test_format_transformation_coordinates: cells column by column, fourth row dropped. */
  lemma CoordinatesText(precision: nat)
    requires precision >= 1
    ensures FormatTransformation(CoordinateMatrix(), precision) == "0 1 2 0.1 1.1 2.1 0.2 1.2 2.2 0.3 1.3 2.3"
  {
    CoordinateWords(precision);
    JoinColumns(["0", "1", "2"], ["0.1", "1.1", "2.1"], ["0.2", "1.2", "2.2"], ["0.3", "1.3", "2.3"]);
    ColumnJoins();
    CoordinatesConcat();
  }

  lemma CoordinatesConcat()
    ensures "0 1 2" + " " + "0.1 1.1 2.1" + " " + "0.2 1.2 2.2" + " " + "0.3 1.3 2.3" == "0 1 2 0.1 1.1 2.1 0.2 1.2 2.2 0.3 1.3 2.3"
  {
  }

  lemma ColumnJoins()
    ensures Join(["0", "1", "2"]) == "0 1 2"
    ensures Join(["0.1", "1.1", "2.1"]) == "0.1 1.1 2.1"
    ensures Join(["0.2", "1.2", "2.2"]) == "0.2 1.2 2.2"
    ensures Join(["0.3", "1.3", "2.3"]) == "0.3 1.3 2.3"
  {
  }

  lemma JoinColumns(g0: seq<string>, g1: seq<string>, g2: seq<string>, g3: seq<string>)
    requires |g0| >= 1 && |g1| >= 1 && |g2| >= 1 && |g3| >= 1
    ensures Join(g0 + g1 + g2 + g3) == Join(g0) + " " + Join(g1) + " " + Join(g2) + " " + Join(g3)
  {
    JoinAppend(g0, g1);
    JoinAppend(g0 + g1, g2);
    JoinAppend(g0 + g1 + g2, g3);
  }

  lemma CoordinateWords(precision: nat)
    requires precision >= 1
    ensures Texts(Cells(CoordinateMatrix()), precision)
         == ["0", "1", "2"] + ["0.1", "1.1", "2.1"] + ["0.2", "1.2", "2.2"] + ["0.3", "1.3", "2.3"]
  {
    var c0, c1, c2, c3 := [0.0, 1.0, 2.0], [0.1, 1.1, 2.1], [0.2, 1.2, 2.2], [0.3, 1.3, 2.3];
    assert Cells(CoordinateMatrix()) == c0 + c1 + c2 + c3;
    WholeColumn(precision);
    FirstTenthsColumn(precision);
    SecondTenthsColumn(precision);
    ThirdTenthsColumn(precision);
    TextsAppend(c0, c1, precision);
    TextsAppend(c0 + c1, c2, precision);
    TextsAppend(c0 + c1 + c2, c3, precision);
  }

  lemma WholeColumn(precision: nat)
    requires precision >= 1
    ensures Texts([0.0, 1.0, 2.0], precision) == ["0", "1", "2"]
  {
    WholeTenths();
    FormatTenths(0, precision);
    FormatTenths(10, precision);
    FormatTenths(20, precision);
    TextsTriple(0.0, 1.0, 2.0, precision);
  }

  lemma FirstTenthsColumn(precision: nat)
    requires precision >= 1
    ensures Texts([0.1, 1.1, 2.1], precision) == ["0.1", "1.1", "2.1"]
  {
    FractionTenthsLow();
    FormatTenths(1, precision);
    FormatTenths(11, precision);
    FormatTenths(21, precision);
    TextsTriple(0.1, 1.1, 2.1, precision);
  }

  lemma SecondTenthsColumn(precision: nat)
    requires precision >= 1
    ensures Texts([0.2, 1.2, 2.2], precision) == ["0.2", "1.2", "2.2"]
  {
    FractionTenthsMiddle();
    FormatTenths(2, precision);
    FormatTenths(12, precision);
    FormatTenths(22, precision);
    TextsTriple(0.2, 1.2, 2.2, precision);
  }

  lemma ThirdTenthsColumn(precision: nat)
    requires precision >= 1
    ensures Texts([0.3, 1.3, 2.3], precision) == ["0.3", "1.3", "2.3"]
  {
    FractionTenthsHigh();
    FormatTenths(3, precision);
    FormatTenths(13, precision);
    FormatTenths(23, precision);
    TextsTriple(0.3, 1.3, 2.3, precision);
  }

  lemma TextsTriple(x: real, y: real, z: real, precision: nat)
    ensures Texts([x, y, z], precision) == [FormatNumber(x, precision), FormatNumber(y, precision), FormatNumber(z, precision)]
  {
    assert [z][1..] == [];
    assert Texts([z], precision) == [FormatNumber(z, precision)];
    assert [y, z][1..] == [z];
    assert Texts([y, z], precision) == [FormatNumber(y, precision)] + Texts([z], precision);
    assert [x, y, z][1..] == [y, z];
    assert Texts([x, y, z], precision) == [FormatNumber(x, precision)] + Texts([y, z], precision);
  }
}
