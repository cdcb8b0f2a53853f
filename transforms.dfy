/**
 * Affine 4x4 transformations as the exporter composes them, and their text
 * form in the 3MF "transform" attribute: twelve numbers, the upper three rows
 * read column by column, the fourth row dropped.
 */
module Transforms {
  import opened Wrappers
  import opened NumberFormat

  /** A 4x4 matrix stored row by row: m[row][column]. */
  type Matrix4 = m: seq<seq<real>> | |m| == 4 && |m[0]| == 4 && |m[1]| == 4 && |m[2]| == 4 && |m[3]| == 4
    witness [[1.0, 0.0, 0.0, 0.0], [0.0, 1.0, 0.0, 0.0], [0.0, 0.0, 1.0, 0.0], [0.0, 0.0, 0.0, 1.0]]

  /** A uniform scale by `factor` along the three axes (mathutils' Matrix.Scale(factor, 4)). */
  function Scale(factor: real): Matrix4
  {
    [[factor, 0.0, 0.0, 0.0],
     [0.0, factor, 0.0, 0.0],
     [0.0, 0.0, factor, 0.0],
     [0.0, 0.0, 0.0, 1.0]]
  }

  function Identity(): Matrix4
  {
    Scale(1.0)
  }

  /** A translation by (x, y, z): the offset sits in the fourth column. */
  function Translation(x: real, y: real, z: real): Matrix4
  {
    [[1.0, 0.0, 0.0, x],
     [0.0, 1.0, 0.0, y],
     [0.0, 0.0, 1.0, z],
     [0.0, 0.0, 0.0, 1.0]]
  }

  function Dot(a: Matrix4, b: Matrix4, i: nat, j: nat): real
    requires i < 4 && j < 4
  {
    a[i][0] * b[0][j] + a[i][1] * b[1][j] + a[i][2] * b[2][j] + a[i][3] * b[3][j]
  }

  function ProductRow(a: Matrix4, b: Matrix4, i: nat): seq<real>
    requires i < 4
  {
    [Dot(a, b, i, 0), Dot(a, b, i, 1), Dot(a, b, i, 2), Dot(a, b, i, 3)]
  }

  /** The matrix product a * b (mathutils' a @ b): b is applied first. */
  function Mul(a: Matrix4, b: Matrix4): Matrix4
  {
    [ProductRow(a, b, 0), ProductRow(a, b, 1), ProductRow(a, b, 2), ProductRow(a, b, 3)]
  }

  /** Scaling on the outside multiplies the upper three rows by the factor and keeps the fourth row. */
  lemma ScaleOutside(factor: real, m: Matrix4)
    ensures forall i, j | 0 <= i < 4 && 0 <= j < 4 ::
      Mul(Scale(factor), m)[i][j] == if i < 3 then factor * m[i][j] else m[i][j]
  {
  }

  lemma IdentityNeutral(m: Matrix4)
    ensures Mul(Identity(), m) == m
  {
    var p := Mul(Identity(), m);
    ScaleOutside(1.0, m);
    assert p[0] == m[0] && p[1] == m[1] && p[2] == m[2] && p[3] == m[3];
  }

  // ---------------------------------------------------------------------
  // Text form

  /** The words joined with single spaces. */
  function Join(words: seq<string>): string
  {
    if |words| == 0 then ""
    else if |words| == 1 then words[0]
    else words[0] + " " + Join(words[1..])
  }

  /** The text cut at every space (the inverse of Join). */
  function Split(s: string): (words: seq<string>)
    ensures |words| >= 1
    decreases |s|
  {
    var i := FirstIndex(s, ' ');
    if i == |s| then [s] else [s[..i]] + Split(s[i + 1..])
  }

  lemma {:induction false} SplitJoin(words: seq<string>)
    requires |words| >= 1
    requires forall k :: 0 <= k < |words| ==> ' ' !in words[k]
    ensures Split(Join(words)) == words
  {
    var w := words[0];
    if |words| == 1 {
      assert FirstIndex(w, ' ') == |w|;
    } else {
      var s := Join(words);
      var rest := Join(words[1..]);
      assert s == w + " " + rest;
      assert s[|w|] == ' ';
      assert forall k :: 0 <= k < |w| ==> s[k] == w[k];
      assert FirstIndex(s, ' ') == |w|;
      assert s[..|w|] == w;
      assert s[|w| + 1..] == rest;
      SplitJoin(words[1..]);
      assert [w] + words[1..] == words;
    }
  }

  /** The twelve cells the transform attribute carries: column by column over rows 0..2. */
  function Cells(m: Matrix4): (cells: seq<real>)
    ensures |cells| == 12
    ensures forall k :: 0 <= k < 12 ==> cells[k] == m[k % 3][k / 3]
  {
    [m[0][0], m[1][0], m[2][0], m[0][1], m[1][1], m[2][1], m[0][2], m[1][2], m[2][2], m[0][3], m[1][3], m[2][3]]
  }

  /** Each number formatted at the given precision. */
  function Texts(xs: seq<real>, precision: nat): (ts: seq<string>)
    ensures |ts| == |xs|
  {
    if xs == [] then [] else [FormatNumber(xs[0], precision)] + Texts(xs[1..], precision)
  }

  /** Text k is number k, formatted. */
  lemma {:induction false} TextAt(xs: seq<real>, k: nat, precision: nat)
    requires k < |xs|
    ensures Texts(xs, precision)[k] == FormatNumber(xs[k], precision)
  {
    if k > 0 {
      TextAt(xs[1..], k - 1, precision);
    }
  }

  lemma {:induction false} TextsAppend(a: seq<real>, b: seq<real>, precision: nat)
    ensures Texts(a + b, precision) == Texts(a, precision) + Texts(b, precision)
  {
    if a == [] {
      assert a + b == b;
    } else {
      assert (a + b)[1..] == a[1..] + b;
      TextsAppend(a[1..], b, precision);
    }
  }

  /** format_transformation: the 3MF text form of a 4x4 affine matrix. */
  function FormatTransformation(m: Matrix4, precision: nat): string
  {
    Join(Texts(Cells(m), precision))
  }

  /**
   * The transform attribute of an item or component: absent when the
   * transformation is the identity, the formatted matrix otherwise.
   */
  function TransformAttribute(m: Matrix4, precision: nat): Option<string>
  {
    if m == Identity() then None else Some(FormatTransformation(m, precision))
  }

  lemma NoSpaceInNumber(x: real, precision: nat)
    ensures ' ' !in FormatNumber(x, precision)
  {
    FormatIsCanonical(x, precision);
  }

  /**
   * Cutting the transform text at its spaces gives exactly twelve numbers;
   * number k is cell (k mod 3, k div 3) of the matrix, formatted. Nothing of
   * the fourth row appears.
   */
  lemma TransformationWords(m: Matrix4, precision: nat)
    ensures var words := Split(FormatTransformation(m, precision));
            |words| == 12 &&
            forall k :: 0 <= k < 12 ==> words[k] == FormatNumber(m[k % 3][k / 3], precision)
  {
    var cells := Texts(Cells(m), precision);
    forall k | 0 <= k < 12 ensures cells[k] == FormatNumber(m[k % 3][k / 3], precision) && ' ' !in cells[k] {
      TextAt(Cells(m), k, precision);
      NoSpaceInNumber(m[k % 3][k / 3], precision);
    }
    SplitJoin(cells);
  }

  /** The fourth row never reaches the text. */
  lemma FourthRowIgnored(m: Matrix4, n: Matrix4, precision: nat)
    requires m[0] == n[0] && m[1] == n[1] && m[2] == n[2]
    ensures FormatTransformation(m, precision) == FormatTransformation(n, precision)
  {
  }

  /** A uniform scale by a whole number n prints as "n 0 0 0 n 0 0 0 n 0 0 0" at every precision. */
  lemma WholeScaleText(n: nat, precision: nat)
    ensures var t := NatText(n);
            FormatTransformation(Scale(n as real), precision) == t + " 0 0 0 " + t + " 0 0 0 " + t + " 0 0 0"
  {
    var t := NatText(n);
    WholeScaleWords(n, precision);
    JoinScaleWords(t);
  }

  lemma WholeScaleWords(n: nat, precision: nat)
    ensures var t := NatText(n);
            Texts(Cells(Scale(n as real)), precision) == [t, "0", "0", "0", t, "0", "0", "0", t, "0", "0", "0"]
  {
    var x := n as real;
    var xs := Cells(Scale(x));
    assert xs == [x, 0.0, 0.0, 0.0, x, 0.0, 0.0, 0.0, x, 0.0, 0.0, 0.0];
    FormatWhole(n, precision);
    FormatWhole(0, precision);
    ScalePatternTexts(xs, x, NatText(n), precision);
  }

  lemma ScalePatternTexts(xs: seq<real>, x: real, t: string, precision: nat)
    requires xs == [x, 0.0, 0.0, 0.0, x, 0.0, 0.0, 0.0, x, 0.0, 0.0, 0.0]
    requires FormatNumber(x, precision) == t
    requires FormatNumber(0.0, precision) == "0"
    ensures Texts(xs, precision) == [t, "0", "0", "0", t, "0", "0", "0", t, "0", "0", "0"]
  {
    var g := [x, 0.0, 0.0, 0.0];
    ThreeGroups(x, 0.0);
    ScaleGroupTexts(x, t, precision);
    TextsAppend(g, g, precision);
    TextsAppend(g + g, g, precision);
    ThreeGroups(t, "0");
  }

  /** Proof helper: three copies of the group [a, z, z, z], one after the other. */
  lemma ThreeGroups<T>(a: T, z: T)
    ensures [a, z, z, z] + [a, z, z, z] + [a, z, z, z] == [a, z, z, z, a, z, z, z, a, z, z, z]
  {
  }

  lemma ScaleGroupTexts(x: real, t: string, precision: nat)
    requires FormatNumber(x, precision) == t
    requires FormatNumber(0.0, precision) == "0"
    ensures Texts([x, 0.0, 0.0, 0.0], precision) == [t, "0", "0", "0"]
  {
    var zero := FormatNumber(0.0, precision);
    assert [0.0][1..] == [];
    assert Texts([0.0], precision) == [zero];
    assert [0.0, 0.0][1..] == [0.0];
    assert Texts([0.0, 0.0], precision) == [zero] + Texts([0.0], precision);
    assert [0.0, 0.0, 0.0][1..] == [0.0, 0.0];
    assert Texts([0.0, 0.0, 0.0], precision) == [zero] + Texts([0.0, 0.0], precision);
    assert [x, 0.0, 0.0, 0.0][1..] == [0.0, 0.0, 0.0];
    assert Texts([x, 0.0, 0.0, 0.0], precision) == [t] + Texts([0.0, 0.0, 0.0], precision);
  }


  lemma {:induction false} JoinAppend(a: seq<string>, b: seq<string>)
    requires |a| >= 1 && |b| >= 1
    ensures Join(a + b) == Join(a) + " " + Join(b)
  {
    if |a| == 1 {
      assert (a + b)[1..] == b;
    } else {
      assert (a + b)[1..] == a[1..] + b;
      JoinAppend(a[1..], b);
    }
  }

  lemma JoinScaleWords(t: string)
    ensures Join([t, "0", "0", "0", t, "0", "0", "0", t, "0", "0", "0"]) == t + " 0 0 0 " + t + " 0 0 0 " + t + " 0 0 0"
  {
    var group := [t, "0", "0", "0"];
    assert Join(["0"]) == "0";
    assert Join(["0", "0"]) == "0 0";
    assert Join(["0", "0", "0"]) == "0 0 0";
    assert Join(group) == t + " 0 0 0";
    JoinAppend(group, group);
    JoinAppend(group + group, group);
    assert group + group + group == [t, "0", "0", "0", t, "0", "0", "0", t, "0", "0", "0"];
  }

  /** The identity prints as "1 0 0 0 1 0 0 0 1 0 0 0". */
  lemma IdentityText(precision: nat)
    ensures FormatTransformation(Identity(), precision) == "1 0 0 0 1 0 0 0 1 0 0 0"
  {
    WholeScaleText(1, precision);
    assert NatText(1) == "1";
    IdentitySpelled();
  }

  lemma IdentitySpelled()
    ensures "1" + " 0 0 0 " + "1" + " 0 0 0 " + "1" + " 0 0 0" == "1 0 0 0 1 0 0 0 1 0 0 0"
  {
  }
}
