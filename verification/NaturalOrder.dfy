/** The zigzag order of the JPEG standard. */
module NaturalOrder {
  import opened ScanSetup

  const ROW0: seq<nat> := [0, 1, 8, 16, 9, 2, 3, 10]
  const ROW1: seq<nat> := [17, 24, 32, 25, 18, 11, 4, 5]
  const ROW2: seq<nat> := [12, 19, 26, 33, 40, 48, 41, 34]
  const ROW3: seq<nat> := [27, 20, 13, 6, 7, 14, 21, 28]
  const ROW4: seq<nat> := [35, 42, 49, 56, 57, 50, 43, 36]
  const ROW5: seq<nat> := [29, 22, 15, 23, 30, 37, 44, 51]
  const ROW6: seq<nat> := [58, 59, 52, 45, 38, 31, 39, 46]
  const ROW7: seq<nat> := [53, 60, 61, 54, 47, 55, 62, 63]

  /** jpeg_natural_order: the coefficient at each position of the scan. */
  const JPEG_NATURAL_ORDER: seq<nat> := ROW0 + ROW1 + ROW2 + ROW3 + ROW4 + ROW5 + ROW6 + ROW7

  /** How many coefficients lie on the first d anti-diagonals of the corner. */
  function Triangle(d: nat): nat
  {
    if d == 0 then 0 else Triangle(d - 1) + d
  }

  function Corner(r: nat, c: nat): nat
  {
    Triangle(r + c) + if (r + c) % 2 == 0 then c else r
  }

  /** When the zigzag walk meets row r, column c: it runs along the anti-diagonals,
      alternately upwards and downwards, and the lower half mirrors the upper. */
  function Visit(r: nat, c: nat): int
    requires r < 8 && c < 8
  {
    if r + c < 8 then Corner(r, c) else 63 - Corner(7 - r, 7 - c)
  }

  predicate MetAt(n: nat, k: nat)
  {
    n < 64 && Visit(n / 8, n % 8) == k
  }

  predicate RowMet(row: seq<nat>, start: nat)
  {
    |row| == 8 && forall i :: 0 <= i < 8 ==> MetAt(row[i], start + i)
  }

  lemma Triangles()
    ensures Triangle(0) == 0 && Triangle(1) == 1 && Triangle(2) == 3 && Triangle(3) == 6
    ensures Triangle(4) == 10 && Triangle(5) == 15 && Triangle(6) == 21 && Triangle(7) == 28
  {
    assert Triangle(3) == 6;
    assert Triangle(5) == 15;
  }

  /** Coefficient 8r + c is met when the walk visits row r, column c. */
  lemma Meets(r: nat, c: nat, k: nat)
    requires r < 8 && c < 8 && Visit(r, c) == k
    ensures MetAt(8 * r + c, k)
  {
    hide Visit;
    assert (8 * r + c) / 8 == r && (8 * r + c) % 8 == c;
  }

  lemma MetOnce(n: nat, j: nat, k: nat)
    requires MetAt(n, j) && MetAt(n, k)
    ensures j == k
  {
    hide Visit;
  }

  lemma Row0()
    ensures RowMet(ROW0, 0)
  {
    Triangles();
    hide Triangle, MetAt;
    Meets(0, 0, 0); Meets(0, 1, 1); Meets(1, 0, 2); Meets(2, 0, 3);
    Meets(1, 1, 4); Meets(0, 2, 5); Meets(0, 3, 6); Meets(1, 2, 7);
  }

  lemma Row1()
    ensures RowMet(ROW1, 8)
  {
    Triangles();
    hide Triangle, MetAt;
    Meets(2, 1, 8); Meets(3, 0, 9); Meets(4, 0, 10); Meets(3, 1, 11);
    Meets(2, 2, 12); Meets(1, 3, 13); Meets(0, 4, 14); Meets(0, 5, 15);
  }

  lemma Row2()
    ensures RowMet(ROW2, 16)
  {
    Triangles();
    hide Triangle, MetAt;
    Meets(1, 4, 16); Meets(2, 3, 17); Meets(3, 2, 18); Meets(4, 1, 19);
    Meets(5, 0, 20); Meets(6, 0, 21); Meets(5, 1, 22); Meets(4, 2, 23);
  }

  lemma Row3()
    ensures RowMet(ROW3, 24)
  {
    Triangles();
    hide Triangle, MetAt;
    Meets(3, 3, 24); Meets(2, 4, 25); Meets(1, 5, 26); Meets(0, 6, 27);
    Meets(0, 7, 28); Meets(1, 6, 29); Meets(2, 5, 30); Meets(3, 4, 31);
  }

  lemma Row4()
    ensures RowMet(ROW4, 32)
  {
    Triangles();
    hide Triangle, MetAt;
    Meets(4, 3, 32); Meets(5, 2, 33); Meets(6, 1, 34); Meets(7, 0, 35);
    Meets(7, 1, 36); Meets(6, 2, 37); Meets(5, 3, 38); Meets(4, 4, 39);
  }

  lemma Row5()
    ensures RowMet(ROW5, 40)
  {
    Triangles();
    hide Triangle, MetAt;
    Meets(3, 5, 40); Meets(2, 6, 41); Meets(1, 7, 42); Meets(2, 7, 43);
    Meets(3, 6, 44); Meets(4, 5, 45); Meets(5, 4, 46); Meets(6, 3, 47);
  }

  lemma Row6()
    ensures RowMet(ROW6, 48)
  {
    Triangles();
    hide Triangle, MetAt;
    Meets(7, 2, 48); Meets(7, 3, 49); Meets(6, 4, 50); Meets(5, 5, 51);
    Meets(4, 6, 52); Meets(3, 7, 53); Meets(4, 7, 54); Meets(5, 6, 55);
  }

  lemma Row7()
    ensures RowMet(ROW7, 56)
  {
    Triangles();
    hide Triangle, MetAt;
    Meets(6, 5, 56); Meets(7, 4, 57); Meets(7, 5, 58); Meets(6, 6, 59);
    Meets(5, 7, 60); Meets(6, 7, 61); Meets(7, 6, 62); Meets(7, 7, 63);
  }

  lemma Entry(row: seq<nat>, start: nat, i: nat)
    requires RowMet(row, start) && i < 8
    ensures MetAt(row[i], start + i)
  {
  }

  /** Entry k of the table is where the zigzag walk is after k steps. */
  lemma TableEntry(k: nat)
    requires k < 64
    ensures |JPEG_NATURAL_ORDER| == 64 && MetAt(JPEG_NATURAL_ORDER[k], k)
  {
    hide MetAt, ROW0, ROW1, ROW2, ROW3, ROW4, ROW5, ROW6, ROW7;
    Row0(); Row1(); Row2(); Row3(); Row4(); Row5(); Row6(); Row7();
    var i := k % 8;
    if k < 8 { Entry(ROW0, 0, i); }
    else if k < 16 { Entry(ROW1, 8, i); }
    else if k < 24 { Entry(ROW2, 16, i); }
    else if k < 32 { Entry(ROW3, 24, i); }
    else if k < 40 { Entry(ROW4, 32, i); }
    else if k < 48 { Entry(ROW5, 40, i); }
    else if k < 56 { Entry(ROW6, 48, i); }
    else { Entry(ROW7, 56, i); }
  }

  /** So the table lists every coefficient once, the DC coefficient first. */
  lemma TableIsZigzag()
    ensures IsZigzag(JPEG_NATURAL_ORDER) && GoodOrder(JPEG_NATURAL_ORDER)
  {
    hide JPEG_NATURAL_ORDER, MetAt, GoodOrder;
    StartsWithDc();
    forall k | 0 <= k < 64
      ensures JPEG_NATURAL_ORDER[k] < 64 && MetAt(JPEG_NATURAL_ORDER[k], k)
    {
      TableEntry(k);
      MetInBlock(JPEG_NATURAL_ORDER[k], k);
    }
    ZigzagIsGood(JPEG_NATURAL_ORDER);
  }

  predicate IsZigzag(o: seq<nat>)
  {
    |o| == 64 && forall k :: 0 <= k < 64 ==> o[k] < 64 && MetAt(o[k], k)
  }

  lemma ZigzagIsGood(o: seq<nat>)
    requires IsZigzag(o) && o[0] == 0
    ensures GoodOrder(o)
  {
    hide MetAt;
    forall j, k | 0 <= j < k < 64 ensures o[j] != o[k] {
      if o[j] == o[k] {
        MetOnce(o[j], j, k);
      }
    }
  }

  lemma MetInBlock(n: nat, k: nat)
    requires MetAt(n, k)
    ensures n < 64
  {
    hide Visit;
  }

  lemma StartsWithDc()
    ensures |JPEG_NATURAL_ORDER| == 64 && JPEG_NATURAL_ORDER[0] == 0
  {
    TableEntry(0);
    assert JPEG_NATURAL_ORDER[0] == ROW0[0];
  }
}
