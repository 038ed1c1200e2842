/** The eight mask patterns, and laws that tell them apart. */
module Masks {
  import opened Wrappers
  import opened Modular

  /** Whether a pattern inverts a module; None for a pattern that raises. */
  function Mask(pattern: int, i: nat, j: nat): Option<bool> {
    match pattern
    case 0 => Some((i + j) % 2 == 0)
    case 1 => Some(i % 2 == 0)
    case 2 => Some(j % 3 == 0)
    case 3 => Some((i + j) % 3 == 0)
    case 4 => Some((i / 2 + j / 3) % 2 == 0)
    case 5 => Some((i * j) % 2 + (i * j) % 3 == 0)
    case 6 => Some(((i * j) % 2 + (i * j) % 3) % 2 == 0)
    case 7 => Some(((i * j) % 3 + (i + j) % 2) % 2 == 0)
    case _ => None
  }

  lemma MaskDefined(pattern: int, i: nat, j: nat)
    ensures Mask(pattern, i, j).Some? <==> 0 <= pattern < 8
  {
  }

  /** For a reader, a family of masks: whether a pattern inverts the module in a row and a column. */
  type Family = (int, nat, nat) -> bool

  // ----- the laws -----

  /** Pattern 0 is a chessboard. */
  ghost predicate Chessboard(m: Family, i: nat, j: nat) {
    m(0, 0, 0) && m(0, i, j + 1) != m(0, i, j) && m(0, i + 1, j) != m(0, i, j)
  }

  /** Pattern 1 is stripes of single rows. */
  ghost predicate Stripes(m: Family, i: nat, j: nat) {
    m(1, 0, 0) && m(1, i, j + 1) == m(1, i, j) && m(1, i + 1, j) != m(1, i, j)
  }

  /** Pattern 2 is every third column. */
  ghost predicate Thirds(m: Family, i: nat, j: nat) {
    m(2, 0, 0) && !m(2, 0, 1) && !m(2, 0, 2) && m(2, i + 1, j) == m(2, i, j) && m(2, i, j + 3) == m(2, i, j)
  }

  /** Pattern 3 is every third diagonal. */
  ghost predicate Diagonals(m: Family, i: nat, j: nat) {
    m(3, 0, 0) && !m(3, 0, 1) && !m(3, 0, 2) && m(3, i + 1, j) == m(3, i, j + 1) && m(3, i, j + 3) == m(3, i, j)
  }

  /** Pattern 4 is a chessboard of blocks two modules high and three wide. */
  ghost predicate Blocks(m: Family, i: nat, j: nat) {
    && m(4, 0, 0) && m(4, i + 2, j) != m(4, i, j) && m(4, i, j + 3) != m(4, i, j)
    && m(4, 1, j) == m(4, 0, j) && m(4, i, 1) == m(4, i, 0) && m(4, i, 2) == m(4, i, 0)
  }

  /** Pattern 5 crosses even rows and columns with third ones. Pattern 7 is the chessboard, changed where row and column
      leave the same remainder modulo three, not zero. Pattern 6 is pattern 7, changed but where both are even. */
  ghost predicate Crossings(m: Family, i: nat, j: nat) {
    && m(5, i, j) == ((m(1, i, j) || m(1, j, i)) && (m(2, i, j) || m(2, j, i)))
    && m(7, i, j) == (m(0, i, j) != (m(3, i, 2 * j) && !m(2, i, j)))
    && (m(6, i, j) == m(7, i, j) <==> m(1, i, j) && m(1, j, i))
  }

  ghost predicate LawsAt(m: Family, i: nat, j: nat) {
    && Chessboard(m, i, j) && Stripes(m, i, j) && Thirds(m, i, j) && Diagonals(m, i, j) && Blocks(m, i, j)
    && Crossings(m, i, j)
  }

  ghost predicate Lawful(m: Family) {
    forall i: nat, j: nat :: LawsAt(m, i, j)
  }

  // ----- only these masks obey them -----

  lemma {:induction false} ChessboardIs(m: Family, i: nat, j: nat)
    requires Lawful(m)
    ensures m(0, i, j) == ((i + j) % 2 == 0)
    decreases i, j
  {
    hide Stripes, Thirds, Diagonals, Blocks, Crossings;
    if i > 0 {
      ChessboardIs(m, i - 1, j);
      assert LawsAt(m, i - 1, j);
    } else if j > 0 {
      ChessboardIs(m, 0, j - 1);
      assert LawsAt(m, 0, j - 1);
    } else {
      assert LawsAt(m, 0, 0);
    }
  }

  lemma {:induction false} StripesAre(m: Family, i: nat, j: nat)
    requires Lawful(m)
    ensures m(1, i, j) == (i % 2 == 0)
    decreases i, j
  {
    hide Chessboard, Thirds, Diagonals, Blocks, Crossings;
    if i > 0 {
      StripesAre(m, i - 1, j);
      assert LawsAt(m, i - 1, j);
    } else if j > 0 {
      StripesAre(m, 0, j - 1);
      assert LawsAt(m, 0, j - 1);
    } else {
      assert LawsAt(m, 0, 0);
    }
  }

  lemma {:induction false} ThirdsAre(m: Family, i: nat, j: nat)
    requires Lawful(m)
    ensures m(2, i, j) == (j % 3 == 0)
    decreases i, j
  {
    hide Chessboard, Stripes, Diagonals, Blocks, Crossings;
    if i > 0 {
      ThirdsAre(m, i - 1, j);
      assert LawsAt(m, i - 1, j);
    } else if j > 2 {
      ThirdsAre(m, 0, j - 3);
      assert LawsAt(m, 0, j - 3);
    } else {
      assert LawsAt(m, 0, 0);
    }
  }

  lemma {:induction false} DiagonalsAre(m: Family, i: nat, j: nat)
    requires Lawful(m)
    ensures m(3, i, j) == ((i + j) % 3 == 0)
    decreases i, j
  {
    hide Chessboard, Stripes, Thirds, Blocks, Crossings;
    if i > 0 {
      DiagonalsAre(m, i - 1, j + 1);
      assert LawsAt(m, i - 1, j);
    } else if j > 2 {
      DiagonalsAre(m, 0, j - 3);
      assert LawsAt(m, 0, j - 3);
    } else {
      assert LawsAt(m, 0, 0);
    }
  }

  lemma {:induction false} BlocksAre(m: Family, i: nat, j: nat)
    requires Lawful(m)
    ensures m(4, i, j) == ((i / 2 + j / 3) % 2 == 0)
    decreases i, j
  {
    hide Chessboard, Stripes, Thirds, Diagonals, Crossings;
    if i > 1 {
      BlocksAre(m, i - 2, j);
      assert LawsAt(m, i - 2, j);
      assert i / 2 == (i - 2) / 2 + 1;
    } else if j > 2 {
      BlocksAre(m, i, j - 3);
      assert LawsAt(m, i, j - 3);
      assert j / 3 == (j - 3) / 3 + 1;
    } else {
      assert LawsAt(m, 0, 0) && LawsAt(m, i, j);
    }
  }

  lemma ProductModulo(i: nat, j: nat, n: nat)
    requires n > 0
    ensures (i * j) % n == ((i % n) * (j % n)) % n
  {
    CongMod(i, n);
    CongMod(j, n);
    CongMul(i, i % n, j, j % n, n);
    CongEqual(i * j, (i % n) * (j % n), n);
  }

  /** When a product is even, a multiple of three, or one more than such a multiple. */
  lemma Products(i: nat, j: nat)
    ensures (i * j) % 2 == 0 <==> i % 2 == 0 || j % 2 == 0
    ensures (i * j) % 3 == 0 <==> i % 3 == 0 || j % 3 == 0
    ensures (i * j) % 3 == 1 <==> (i + 2 * j) % 3 == 0 && j % 3 != 0
  {
    ProductModulo(i, j, 2);
    ProductModulo(i, j, 3);
    SmallProducts(i % 2, j % 2, i % 3, j % 3);
    SameRemainder(i, j);
  }

  lemma SameRemainder(i: nat, j: nat)
    ensures (i + 2 * j) % 3 == 0 <==> i % 3 == j % 3
  {
  }

  lemma SmallProducts(a: nat, b: nat, c: nat, d: nat)
    requires a < 2 && b < 2 && c < 3 && d < 3
    ensures (a * b) % 2 == 0 <==> a == 0 || b == 0
    ensures (c * d) % 3 == 0 <==> c == 0 || d == 0
    ensures (c * d) % 3 == 1 <==> c == d != 0
  {
    assert a == 1 && b == 1 ==> a * b == 1;
    assert a == 0 || b == 0 ==> a * b == 0;
    assert c == 0 || d == 0 ==> c * d == 0;
    assert c == 1 ==> c * d == d;
    assert d == 1 ==> c * d == c;
    assert c == 2 && d == 2 ==> c * d == 4;
  }

  /** Whether the sum of a bit and a remainder modulo three is even. */
  lemma Parities(a: nat, b: nat)
    requires a < 2 && b < 3
    ensures a + b == 0 <==> a == 0 && b == 0
    ensures (a + b) % 2 == 0 <==> (a == 1 <==> b == 1)
  {
  }

  lemma CrossMasks(i: nat, j: nat)
    ensures Mask(5, i, j) == Some((i % 2 == 0 || j % 2 == 0) && (i % 3 == 0 || j % 3 == 0))
    ensures Mask(6, i, j) == Some((i % 2 == 1 && j % 2 == 1) == ((i + 2 * j) % 3 == 0 && j % 3 != 0))
    ensures Mask(7, i, j) == Some(((i + j) % 2 == 0) != ((i + 2 * j) % 3 == 0 && j % 3 != 0))
  {
    Products(i, j);
    Parities((i * j) % 2, (i * j) % 3);
    Parities((i + j) % 2, (i * j) % 3);
  }

  /** A family that obeys the laws is the program's. */
  lemma LawsDetermine(m: Family, pattern: int, i: nat, j: nat)
    requires Lawful(m) && 0 <= pattern < 8
    ensures Mask(pattern, i, j) == Some(m(pattern, i, j))
  {
    hide Chessboard, Stripes, Thirds, Diagonals, Blocks;
    ChessboardIs(m, i, j);
    StripesAre(m, i, j);
    ThirdsAre(m, i, j);
    DiagonalsAre(m, i, j);
    BlocksAre(m, i, j);
    if pattern >= 5 {
      assert LawsAt(m, i, j);
      hide Lawful;
      StripesAre(m, j, i);
      ThirdsAre(m, j, i);
      DiagonalsAre(m, i, 2 * j);
      CrossMasks(i, j);
      hide Mask;
      Parity(i, j);
    }
  }

  lemma Parity(i: nat, j: nat)
    ensures (i + j) % 2 == 0 <==> i % 2 == j % 2
  {
  }

  /** The program's masks as a family. */
  function ProgramMasks(): Family {
    (pattern: int, i: nat, j: nat) => Mask(pattern, i, j) == Some(true)
  }

  /** They obey the laws. */
  lemma MasksAreLawful()
    ensures Lawful(ProgramMasks())
  {
    forall i: nat, j: nat ensures LawsAt(ProgramMasks(), i, j) {
      SimpleMasks(i, j);
      ThirdMasks(i, j);
      BlockMasks(i, j);
      CrossingMasks(i, j);
    }
  }

  lemma SimpleMasks(i: nat, j: nat)
    ensures Chessboard(ProgramMasks(), i, j) && Stripes(ProgramMasks(), i, j)
  {
  }

  lemma ThirdMasks(i: nat, j: nat)
    ensures Thirds(ProgramMasks(), i, j) && Diagonals(ProgramMasks(), i, j)
  {
    hide Mask;
    ThirdAt(0, 0);
    ThirdAt(0, 1);
    ThirdAt(0, 2);
    ThirdAt(i, j);
    ThirdAt(i + 1, j);
    ThirdAt(i, j + 1);
    ThirdAt(i, j + 3);
    ThreeMore(j);
    ThreeMore(i + j);
  }

  lemma ThirdAt(i: nat, j: nat)
    ensures Mask(2, i, j) == Some(j % 3 == 0) && Mask(3, i, j) == Some((i + j) % 3 == 0)
  {
  }

  lemma ThreeMore(n: nat)
    ensures (n + 3) % 3 == n % 3
  {
  }

  lemma BlockMasks(i: nat, j: nat)
    ensures Blocks(ProgramMasks(), i, j)
  {
    hide Mask;
    BlockAt(0, 0);
    BlockAt(i, j);
    BlockAt(i + 2, j);
    BlockAt(i, j + 3);
    BlockAt(0, j);
    BlockAt(1, j);
    BlockAt(i, 0);
    BlockAt(i, 1);
    BlockAt(i, 2);
    Halves(i, j);
    NextDiffers(i / 2 + j / 3);
  }

  lemma BlockAt(i: nat, j: nat)
    ensures Mask(4, i, j) == Some((i / 2 + j / 3) % 2 == 0)
  {
  }

  lemma Halves(i: nat, j: nat)
    ensures (i + 2) / 2 == i / 2 + 1 && (j + 3) / 3 == j / 3 + 1
    ensures 0 / 2 == 1 / 2 == 0 && 0 / 3 == 1 / 3 == 2 / 3 == 0
  {
  }

  lemma NextDiffers(n: nat)
    ensures (n + 1) % 2 == 0 <==> n % 2 != 0
  {
  }

  lemma CrossingMasks(i: nat, j: nat)
    ensures Crossings(ProgramMasks(), i, j)
  {
    CrossMasks(i, j);
    Parity(i, j);
  }
}
