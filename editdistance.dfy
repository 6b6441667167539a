/**
 * Levenshtein edit distance as distanciaEdicao computes it: a matrix whose
 * cell (i, j) is the distance between the first i characters of one word
 * and the first j of the other, filled row by row.
 */
module EditDistance {

  /** min: the smallest of three numbers. */
  function Min3(a: int, b: int, c: int): (m: int)
    ensures m <= a && m <= b && m <= c
    ensures m == a || m == b || m == c
  {
    if a < b then (if a < c then a else c) else (if b < c then b else c)
  }

  /**
   * The recurrence of the matrix: the first row and column count the
   * characters, a matching pair copies the diagonal, and otherwise one edit
   * is added to the cheapest of insertion (left), deletion (above) and
   * substitution (diagonal).
   */
  function Cell(a: string, b: string, i: nat, j: nat): nat
    requires i <= |a| && j <= |b|
    decreases i + j
  {
    if i == 0 then j
    else if j == 0 then i
    else if a[i - 1] == b[j - 1] then Cell(a, b, i - 1, j - 1)
    else 1 + Min3(Cell(a, b, i, j - 1), Cell(a, b, i - 1, j), Cell(a, b, i - 1, j - 1))
  }

  /** The distance between the two whole words: the last cell of the matrix. */
  function Distance(a: string, b: string): nat
  {
    Cell(a, b, |a|, |b|)
  }

  /**
   * distanciaEdicao: fill the (|a| + 1) x (|b| + 1) matrix row by row and
   * return its last cell.
   */
  method ComputeDistance(a: string, b: string) returns (d: nat)
    ensures d == Distance(a, b)
  {
    var m := new nat[|a| + 1, |b| + 1];
    for i := 0 to |a| + 1
      invariant forall i', j' {:trigger m[i', j']} | 0 <= i' < i && 0 <= j' <= |b| :: m[i', j'] == Cell(a, b, i', j')
    {
      for j := 0 to |b| + 1
        invariant forall i', j' {:trigger m[i', j']} | 0 <= i' < i && 0 <= j' <= |b| :: m[i', j'] == Cell(a, b, i', j')
        invariant forall j' {:trigger m[i, j']} | 0 <= j' < j :: m[i, j'] == Cell(a, b, i, j')
      {
        var v: nat;
        if i == 0 {
          v := j;
        } else if j == 0 {
          v := i;
        } else if a[i - 1] == b[j - 1] {
          v := m[i - 1, j - 1];
        } else {
          v := 1 + Min3(m[i, j - 1], m[i - 1, j], m[i - 1, j - 1]);
        }
        assert v == Cell(a, b, i, j);
        m[i, j] := v;
      }
    }
    d := m[|a|, |b|];
  }

  /** Against the empty word the distance is the other word's length. */
  lemma DistanceToEmpty(a: string)
    ensures Distance(a, []) == |a| && Distance([], a) == |a|
  {
  }

  /** A cell lies between the difference of the lengths and the longer length. */
  lemma {:induction false} CellBounds(a: string, b: string, i: nat, j: nat)
    requires i <= |a| && j <= |b|
    ensures (if i < j then j - i else i - j) <= Cell(a, b, i, j) <= (if i < j then j else i)
    decreases i + j
  {
    if i > 0 && j > 0 {
      CellBounds(a, b, i - 1, j - 1);
      if a[i - 1] != b[j - 1] {
        CellBounds(a, b, i, j - 1);
        CellBounds(a, b, i - 1, j);
      }
    }
  }

  lemma DistanceBounds(a: string, b: string)
    ensures (if |a| < |b| then |b| - |a| else |a| - |b|) <= Distance(a, b) <= (if |a| < |b| then |b| else |a|)
  {
    CellBounds(a, b, |a|, |b|);
  }

  /** A cell is zero exactly when the two prefixes are equal. */
  lemma {:induction false} CellZero(a: string, b: string, i: nat, j: nat)
    requires i <= |a| && j <= |b|
    ensures Cell(a, b, i, j) == 0 <==> i == j && a[..i] == b[..j]
    decreases i + j
  {
    if i > 0 && j > 0 {
      CellZero(a, b, i - 1, j - 1);
      assert a[..i] == a[..i - 1] + [a[i - 1]];
      assert b[..j] == b[..j - 1] + [b[j - 1]];
      if a[..i] == b[..j] {
        assert a[i - 1] == a[..i][i - 1];
        assert a[..i - 1] == a[..i][..i - 1];
      }
    } else if i > 0 {
      assert |a[..i]| != |b[..j]|;
    } else if j > 0 {
      assert |a[..i]| != |b[..j]|;
    }
  }

  /** The distance is zero exactly between equal words. */
  lemma DistanceZero(a: string, b: string)
    ensures Distance(a, b) == 0 <==> a == b
  {
    CellZero(a, b, |a|, |b|);
    assert a[..|a|] == a && b[..|b|] == b;
  }

  /** Swapping the words transposes the matrix. */
  lemma {:induction false} CellSymmetric(a: string, b: string, i: nat, j: nat)
    requires i <= |a| && j <= |b|
    ensures Cell(a, b, i, j) == Cell(b, a, j, i)
    decreases i + j
  {
    if i > 0 && j > 0 {
      CellSymmetric(a, b, i - 1, j - 1);
      if a[i - 1] != b[j - 1] {
        CellSymmetric(a, b, i, j - 1);
        CellSymmetric(a, b, i - 1, j);
      }
    }
  }

  lemma DistanceSymmetric(a: string, b: string)
    ensures Distance(a, b) == Distance(b, a)
  {
    CellSymmetric(a, b, |a|, |b|);
  }
}
