/** The tables of the shipped codes, and that every one of them is a valid code.

    All data tables of one distance and parity count are prefixes of the longest one, but for the code
    with twelve data fragments, six parities and distance four, which has a table of its own.
 */
module XorHdTables {
  import opened Bitmaps
  import opened XorCode

  datatype Family = Hd3M3 | Hd3M5 | Hd3M6 | Hd4M5 | Hd4M6 | Hd4M6K12

  /** The Hamming distance. */
  function Distance(f: Family): nat {
    match f
    case Hd3M3 => 3
    case Hd3M5 => 3
    case Hd3M6 => 3
    case Hd4M5 => 4
    case Hd4M6 => 4
    case Hd4M6K12 => 4
  }

  /** The number of parities. */
  function Parities(f: Family): nat {
    match f
    case Hd3M3 => 3
    case Hd3M5 => 5
    case Hd3M6 => 6
    case Hd4M5 => 5
    case Hd4M6 => 6
    case Hd4M6K12 => 6
  }

  /** The fewest data fragments of a table of the family. */
  function Shortest(f: Family): nat {
    match f
    case Hd3M3 => 3
    case Hd3M5 => 5
    case Hd3M6 => 6
    case Hd4M5 => 5
    case Hd4M6 => 6
    case Hd4M6K12 => 12
  }

  /** The most data fragments of a table of the family. */
  function Longest(f: Family): nat {
    match f
    case Hd3M3 => 3
    case Hd3M5 => 10
    case Hd3M6 => 15
    case Hd4M5 => 10
    case Hd4M6 => 20
    case Hd4M6K12 => 12
  }

  /** The parities of data fragment i, as a bitmap. */
  function DataBm(f: Family, i: nat): bv32 {
    match f
    case Hd3M3 =>
      if i == 0 then 5 else if i == 1 then 6 else 3
    case Hd3M5 =>
      if i == 0 then 5 else if i == 1 then 9 else if i == 2 then 10 else if i == 3 then 18 else
      if i == 4 then 20 else if i == 5 then 3 else if i == 6 then 12 else if i == 7 then 17 else
      if i == 8 then 6 else 24
    case Hd3M6 =>
      if i == 0 then 17 else if i == 1 then 33 else if i == 2 then 36 else if i == 3 then 24 else
      if i == 4 then 10 else if i == 5 then 6 else if i == 6 then 3 else if i == 7 then 12 else
      if i == 8 then 48 else if i == 9 then 5 else if i == 10 then 18 else if i == 11 then 40 else
      if i == 12 then 9 else if i == 13 then 34 else 20
    case Hd4M5 =>
      if i == 0 then 11 else if i == 1 then 13 else if i == 2 then 21 else if i == 3 then 22 else
      if i == 4 then 26 else if i == 5 then 7 else if i == 6 then 25 else if i == 7 then 14 else
      if i == 8 then 19 else 28
    case Hd4M6 =>
      if i == 0 then 25 else if i == 1 then 41 else if i == 2 then 49 else if i == 3 then 14 else
      if i == 4 then 22 else if i == 5 then 38 else if i == 6 then 7 else if i == 7 then 56 else
      if i == 8 then 11 else if i == 9 then 52 else if i == 10 then 19 else if i == 11 then 44 else
      if i == 12 then 35 else if i == 13 then 28 else if i == 14 then 13 else if i == 15 then 50 else
      if i == 16 then 21 else if i == 17 then 42 else if i == 18 then 37 else 26
    case Hd4M6K12 =>
      if i == 0 then 7 else if i == 1 then 14 else if i == 2 then 28 else if i == 3 then 56 else
      if i == 4 then 49 else if i == 5 then 35 else if i == 6 then 13 else if i == 7 then 26 else
      if i == 8 then 52 else if i == 9 then 41 else if i == 10 then 19 else 38
  }

  function DataBms(f: Family, k: nat): (s: seq<bv32>)
    ensures |s| == k && forall i :: 0 <= i < k ==> s[i] == DataBm(f, i)
  {
    seq(k, i requires 0 <= i < k => DataBm(f, i))
  }

  /** The data of each parity, as bitmaps, for k data fragments. */
  function ParityBms(f: Family, k: nat): seq<bv32> {
    match f
    case Hd3M3 =>
      [5, 6, 3]
    case Hd3M5 =>
      if k == 5 then [3, 12, 17, 6, 24] else
      if k == 6 then [35, 44, 17, 6, 24] else
      if k == 7 then [35, 44, 81, 70, 24] else
      if k == 8 then [163, 44, 81, 70, 152] else
      if k == 9 then [163, 300, 337, 70, 152] else
      [163, 300, 337, 582, 664]
    case Hd3M6 =>
      if k == 6 then [3, 48, 36, 24, 9, 6] else
      if k == 7 then [67, 112, 36, 24, 9, 6] else
      if k == 8 then [67, 112, 164, 152, 9, 6] else
      if k == 9 then [67, 112, 164, 152, 265, 262] else
      if k == 10 then [579, 112, 676, 152, 265, 262] else
      if k == 11 then [579, 1136, 676, 152, 1289, 262] else
      if k == 12 then [579, 1136, 676, 2200, 1289, 2310] else
      if k == 13 then [4675, 1136, 676, 6296, 1289, 2310] else
      if k == 14 then [4675, 9328, 676, 6296, 1289, 10502] else
      [4675, 9328, 17060, 6296, 17673, 10502]
    case Hd4M5 =>
      if k == 5 then [7, 25, 14, 19, 28] else
      if k == 6 then [39, 57, 46, 19, 28] else
      if k == 7 then [103, 57, 46, 83, 92] else
      if k == 8 then [103, 185, 174, 211, 92] else
      if k == 9 then [359, 441, 174, 211, 348] else
      [359, 441, 686, 723, 860]
    case Hd4M6 =>
      if k == 6 then [7, 56, 56, 11, 21, 38] else
      if k == 7 then [71, 120, 120, 11, 21, 38] else
      if k == 8 then [71, 120, 120, 139, 149, 166] else
      if k == 9 then [327, 376, 120, 395, 149, 166] else
      if k == 10 then [327, 376, 632, 395, 661, 678] else
      if k == 11 then [1351, 1400, 632, 395, 1685, 678] else
      if k == 12 then [1351, 1400, 2680, 2443, 1685, 2726] else // between its neighbours; the shipped table for 12 is another
      if k == 13 then [5447, 5496, 2680, 2443, 1685, 6822] else
      if k == 14 then [5447, 5496, 10872, 10635, 9877, 6822] else
      if k == 15 then [21831, 5496, 27256, 27019, 9877, 6822] else
      if k == 16 then [21831, 38264, 27256, 27019, 42645, 39590] else
      if k == 17 then [87367, 38264, 92792, 27019, 108181, 39590] else
      if k == 18 then [87367, 169336, 92792, 158091, 108181, 170662] else
      if k == 19 then [349511, 169336, 354936, 158091, 108181, 432806] else
      [349511, 693624, 354936, 682379, 632469, 432806]
    case Hd4M6K12 =>
      [1649, 3235, 2375, 718, 1436, 2872]
  }

  /** The code with these parameters, if there is a table for them. */
  function InitXorHdCode(k: nat, m: nat, hd: nat): (r: Option<XorCode>)
  {
    if hd == 3 && m == 6 && 6 <= k <= 15 then Some(Table(Hd3M6, k))
    else if hd == 3 && m == 5 && 5 <= k <= 10 then Some(Table(Hd3M5, k))
    else if hd == 3 && m == 3 && k == 3 then Some(Table(Hd3M3, k))
    else if hd == 4 && m == 6 && k == 12 then Some(Table(Hd4M6K12, k))
    else if hd == 4 && m == 6 && 6 <= k <= 20 then Some(Table(Hd4M6, k))
    else if hd == 4 && m == 5 && 5 <= k <= 10 then Some(Table(Hd4M5, k))
    else None
  }

  datatype Option<T> = None | Some(value: T)

  function Table(f: Family, k: nat): XorCode {
    XorCode(k, Parities(f), Distance(f), ParityBms(f, k), DataBms(f, k))
  }

  // ----- the columns

  predicate IsPair(b: bv32) {
    b == 3 || b == 5 || b == 6 || b == 9 || b == 10 || b == 12 || b == 17 || b == 18 || b == 20 || b == 24 ||
    b == 33 || b == 34 || b == 36 || b == 40 || b == 48
  }

  predicate IsTriple(b: bv32) {
    b == 7 || b == 11 || b == 13 || b == 14 || b == 19 || b == 21 || b == 22 || b == 25 || b == 26 || b == 28 ||
    b == 35 || b == 37 || b == 38 || b == 41 || b == 42 || b == 44 || b == 49 || b == 50 || b == 52 || b == 56
  }

  lemma PairWeight0()
    ensures PopCount(3, 6) == 2
    ensures PopCount(5, 6) == 2
    ensures PopCount(6, 6) == 2
    ensures PopCount(9, 6) == 2
    ensures PopCount(10, 6) == 2
  {
  }

  lemma PairWeight1()
    ensures PopCount(12, 6) == 2
    ensures PopCount(17, 6) == 2
    ensures PopCount(18, 6) == 2
    ensures PopCount(20, 6) == 2
    ensures PopCount(24, 6) == 2
  {
  }

  lemma PairWeight2()
    ensures PopCount(33, 6) == 2
    ensures PopCount(34, 6) == 2
    ensures PopCount(36, 6) == 2
    ensures PopCount(40, 6) == 2
    ensures PopCount(48, 6) == 2
  {
  }

  lemma TripleWeight0()
    ensures PopCount(7, 6) == 3
    ensures PopCount(11, 6) == 3
    ensures PopCount(13, 6) == 3
    ensures PopCount(14, 6) == 3
    ensures PopCount(19, 6) == 3
  {
  }

  lemma TripleWeight1()
    ensures PopCount(21, 6) == 3
    ensures PopCount(22, 6) == 3
    ensures PopCount(25, 6) == 3
    ensures PopCount(26, 6) == 3
    ensures PopCount(28, 6) == 3
  {
  }

  lemma TripleWeight2()
    ensures PopCount(35, 6) == 3
    ensures PopCount(37, 6) == 3
    ensures PopCount(38, 6) == 3
    ensures PopCount(41, 6) == 3
    ensures PopCount(42, 6) == 3
  {
  }

  lemma TripleWeight3()
    ensures PopCount(44, 6) == 3
    ensures PopCount(49, 6) == 3
    ensures PopCount(50, 6) == 3
    ensures PopCount(52, 6) == 3
    ensures PopCount(56, 6) == 3
  {
  }

  lemma ColumnWeight(b: bv32)
    ensures IsPair(b) ==> PopCount(b, 6) == 2
    ensures IsTriple(b) ==> PopCount(b, 6) == 3
  {
    hide PopCount;
    PairWeight0();
    PairWeight1();
    PairWeight2();
    TripleWeight0();
    TripleWeight1();
    TripleWeight2();
    TripleWeight3();
  }

  /** Bitmaps below 2^m have no bits from m on. */
  predicate Below(b: bv32, m: nat) {
    if m == 3 then b < 8 else if m == 5 then b < 32 else b < 64
  }

  lemma ShiftedOut(b: bv32)
    ensures b < 8 ==> Shift(Shift(Shift(b))) == 0
    ensures b < 32 ==> Shift(Shift(Shift(Shift(Shift(b))))) == 0
    ensures b < 64 ==> Shift(Shift(Shift(Shift(Shift(Shift(b)))))) == 0
  {
  }

  lemma FiveShifts(b: bv32)
    ensures ShiftN(b, 3) == Shift(Shift(Shift(b)))
    ensures ShiftN(b, 5) == Shift(Shift(ShiftN(b, 3))) && ShiftN(b, 6) == Shift(ShiftN(b, 5))
  {
    hide Shift;
    assert ShiftN(b, 3) == ShiftN(Shift(b), 2);
    ShiftedBit(b, 3, 0);
    ShiftedBit(b, 4, 0);
    ShiftedBit(b, 5, 0);
  }

  lemma BelowClear(b: bv32, m: nat)
    requires (m == 3 || m == 5 || m == 6) && Below(b, m)
    ensures ShiftN(b, m) == 0 && PopCount(b, m) == PopCount(b, 6)
  {
    hide Shift, Bit, ShiftN;
    ShiftedOut(b);
    FiveShifts(b);
    forall i: nat | m <= i < 6 ensures !Bit(b, i) {
      ShiftedBit(b, m, i - m);
      BitZero(i - m);
    }
    if m == 3 { assert PopCount(b, 4) == PopCount(b, 3); }
  }

  /** Data fragment i differs from the first n. */
  predicate Different(f: Family, i: nat, n: nat) {
    n == 0 || (DataBm(f, n - 1) != DataBm(f, i) && Different(f, i, n - 1))
  }

  /** Columns lo to n are right: of the right weight and different from all before. */
  predicate Good(f: Family, lo: nat, n: nat) {
    n <= lo || (Good(f, lo, n - 1) && GoodColumn(f, n - 1))
  }

  predicate GoodColumn(f: Family, i: nat) {
    Below(DataBm(f, i), Parities(f)) && Different(f, i, i)
    && if Distance(f) == 3 then IsPair(DataBm(f, i)) else IsTriple(DataBm(f, i))
  }

  lemma GoodHd3M3()
    ensures Good(Hd3M3, 0, 3)
  {
  }

  lemma GoodHd3M5()
    ensures Good(Hd3M5, 0, 10)
  {
  }

  lemma GoodHd3M6To8()
    ensures Good(Hd3M6, 0, 8)
  {
  }

  lemma GoodHd3M6To15()
    ensures Good(Hd3M6, 8, 15)
  {
    assert Different(Hd3M6, 10, 5);
    assert Different(Hd3M6, 11, 5);
    assert Good(Hd3M6, 8, 10);
    assert Good(Hd3M6, 8, 12);
    assert Different(Hd3M6, 12, 6);
    assert Different(Hd3M6, 13, 6);
    assert Good(Hd3M6, 8, 14);
    assert Different(Hd3M6, 14, 7);
  }

  lemma GoodHd4M5()
    ensures Good(Hd4M5, 0, 10)
  {
  }

  lemma GoodHd4M6To7()
    ensures Good(Hd4M6, 0, 7)
  {
  }

  lemma GoodHd4M6To12()
    ensures Good(Hd4M6, 7, 12)
  {
    assert Different(Hd4M6, 10, 5);
    assert Different(Hd4M6, 11, 5);
  }

  lemma GoodHd4M6To16()
    ensures Good(Hd4M6, 12, 16)
  {
    assert Different(Hd4M6, 12, 6);
    assert Different(Hd4M6, 13, 6);
    assert Different(Hd4M6, 14, 7);
    assert Different(Hd4M6, 15, 7);
  }

  lemma GoodHd4M6To18()
    ensures Good(Hd4M6, 16, 18)
  {
    assert Different(Hd4M6, 16, 8);
    assert Different(Hd4M6, 17, 8);
  }

  lemma GoodHd4M6To20()
    ensures Good(Hd4M6, 18, 20)
  {
    assert Different(Hd4M6, 18, 9);
    assert Different(Hd4M6, 19, 9);
  }

  lemma GoodHd4M6K12()
    ensures Good(Hd4M6K12, 0, 12)
  {
    assert Different(Hd4M6K12, 10, 5);
    assert Different(Hd4M6K12, 11, 5);
  }

  lemma {:induction false} GoodAt(f: Family, lo: nat, n: nat, i: nat)
    requires Good(f, lo, n) && lo <= i < n
    ensures GoodColumn(f, i)
  {
    hide GoodColumn;
    if i < n - 1 { GoodAt(f, lo, n - 1, i); }
  }

  lemma AllGood(f: Family, i: nat)
    requires i < Longest(f)
    ensures GoodColumn(f, i)
  {
    hide Good, GoodColumn;
    match f {
      case Hd3M3 =>
        GoodHd3M3();
        GoodAt(Hd3M3, 0, 3, i);
      case Hd3M5 =>
        GoodHd3M5();
        GoodAt(Hd3M5, 0, 10, i);
      case Hd3M6 =>
        GoodHd3M6To8();
        GoodHd3M6To15();
        if 0 <= i < 8 { GoodAt(Hd3M6, 0, 8, i);
        } else if 8 <= i < 15 { GoodAt(Hd3M6, 8, 15, i);
        }
      case Hd4M5 =>
        GoodHd4M5();
        GoodAt(Hd4M5, 0, 10, i);
      case Hd4M6 =>
        GoodHd4M6To7();
        GoodHd4M6To12();
        GoodHd4M6To16();
        GoodHd4M6To18();
        GoodHd4M6To20();
        if 0 <= i < 7 { GoodAt(Hd4M6, 0, 7, i);
        } else if 7 <= i < 12 { GoodAt(Hd4M6, 7, 12, i);
        } else if 12 <= i < 16 { GoodAt(Hd4M6, 12, 16, i);
        } else if 16 <= i < 18 { GoodAt(Hd4M6, 16, 18, i);
        } else if 18 <= i < 20 { GoodAt(Hd4M6, 18, 20, i);
        }
      case Hd4M6K12 =>
        GoodHd4M6K12();
        GoodAt(Hd4M6K12, 0, 12, i);
    }
  }

  // ----- the parities

  /** The first n data fragments of parity j, from the columns. */
  function ParityWord(f: Family, j: nat, n: nat): bv32 {
    if n == 0 then 0 else Or(ParityWord(f, j, n - 1), if Bit(DataBm(f, n - 1), j) then Single(n - 1) else 0)
  }

  lemma {:induction false} ParityBit(f: Family, j: nat, n: nat, i: nat)
    requires n <= 32
    ensures Bit(ParityWord(f, j, n), i) <==> i < n && Bit(DataBm(f, i), j)
    decreases n
  {
    hide Bit, Or, Single, DataBm;
    if n == 0 {
      BitZero(i);
    } else {
      ParityBit(f, j, n - 1, i);
      BitOr(ParityWord(f, j, n - 1), if Bit(DataBm(f, n - 1), j) then Single(n - 1) else 0, i);
      BitSingle(n - 1, i);
      BitZero(i);
    }
  }


  lemma SomeSingles()
    ensures Single(7) == 128 && Single(13) == 8192
  {
    assert Single(10) == 1024;
  }

  /** Row j of the table for k data fragments is that for k - 1 with the new data fragment put in. */
  predicate RowStep(f: Family, k: nat, j: nat) {
    k > 0 && j < |ParityBms(f, k)| && j < |ParityBms(f, k - 1)|
    && ParityBms(f, k)[j] == if Bit(DataBm(f, k - 1), j) then Or(ParityBms(f, k - 1)[j], Single(k - 1)) else ParityBms(f, k - 1)[j]
  }

  predicate Rows(f: Family, k: nat, n: nat) {
    n == 0 || (RowStep(f, k, n - 1) && Rows(f, k, n - 1))
  }

  predicate BaseRows(f: Family, n: nat) {
    n == 0 || (n <= |ParityBms(f, Shortest(f))| && ParityBms(f, Shortest(f))[n - 1] == ParityWord(f, n - 1, Shortest(f)) && BaseRows(f, n - 1))
  }

  /** The tables with more than lo data fragments, up to k. */
  predicate Tables(f: Family, lo: nat, k: nat) {
    k <= lo || (Rows(f, k, Parities(f)) && Tables(f, lo, k - 1))
  }

  lemma BaseHd3M3()
    ensures BaseRows(Hd3M3, 3)
  {
  }

  lemma BaseHd3M5()
    ensures BaseRows(Hd3M5, 5)
  {
  }

  lemma TablesHd3M5()
    ensures Tables(Hd3M5, 5, 10)
  {
  }

  lemma BaseHd3M6()
    ensures BaseRows(Hd3M6, 6)
  {
  }

  lemma TablesHd3M6To10()
    ensures Tables(Hd3M6, 6, 10)
  {
  }

  lemma TablesHd3M6To15()
    ensures Tables(Hd3M6, 10, 15)
  {
    SomeSingles();
  }

  lemma BaseHd4M5()
    ensures BaseRows(Hd4M5, 5)
  {
  }

  lemma TablesHd4M5()
    ensures Tables(Hd4M5, 5, 10)
  {
  }

  lemma BaseHd4M6()
    ensures BaseRows(Hd4M6, 6)
  {
  }

  lemma TablesHd4M6To10()
    ensures Tables(Hd4M6, 6, 10)
  {
  }

  lemma TablesHd4M6To14()
    ensures Tables(Hd4M6, 10, 14)
  {
    SomeSingles();
  }

  lemma TablesHd4M6To17()
    ensures Tables(Hd4M6, 14, 17)
  {
    SomeSingles();
  }

  lemma TablesHd4M6To20()
    ensures Tables(Hd4M6, 17, 20)
  {
    SomeSingles();
  }

  lemma BaseHd4M6K12()
    ensures BaseRows(Hd4M6K12, 6)
  {
    assert ParityWord(Hd4M6K12, 0, 6) == 49;
    assert ParityWord(Hd4M6K12, 1, 6) == 35;
    assert ParityWord(Hd4M6K12, 2, 6) == 7;
    assert ParityWord(Hd4M6K12, 3, 6) == 14;
    assert ParityWord(Hd4M6K12, 4, 6) == 28;
    assert ParityWord(Hd4M6K12, 5, 6) == 56;
  }

  lemma {:induction false} TableAt(f: Family, lo: nat, n: nat, k: nat)
    requires Tables(f, lo, n) && lo < k <= n
    ensures Rows(f, k, Parities(f))
  {
    hide Rows;
    if k < n { TableAt(f, lo, n - 1, k); }
  }

  lemma AllTables(f: Family, k: nat)
    requires Shortest(f) < k <= Longest(f)
    ensures Rows(f, k, Parities(f))
  {
    hide Tables, Rows;
    match f {
      case Hd3M3 =>
      case Hd3M5 =>
        TablesHd3M5();
        TableAt(Hd3M5, 5, 10, k);
      case Hd3M6 =>
        TablesHd3M6To10();
        TablesHd3M6To15();
        if 6 < k <= 10 { TableAt(Hd3M6, 6, 10, k);
        } else if 10 < k <= 15 { TableAt(Hd3M6, 10, 15, k);
        }
      case Hd4M5 =>
        TablesHd4M5();
        TableAt(Hd4M5, 5, 10, k);
      case Hd4M6 =>
        TablesHd4M6To10();
        TablesHd4M6To14();
        TablesHd4M6To17();
        TablesHd4M6To20();
        if 6 < k <= 10 { TableAt(Hd4M6, 6, 10, k);
        } else if 10 < k <= 14 { TableAt(Hd4M6, 10, 14, k);
        } else if 14 < k <= 17 { TableAt(Hd4M6, 14, 17, k);
        } else if 17 < k <= 20 { TableAt(Hd4M6, 17, 20, k);
        }
      case Hd4M6K12 =>
    }
  }

  lemma AllBase(f: Family)
    ensures BaseRows(f, Parities(f))
  {
    hide BaseRows;
    match f {
      case Hd3M3 => BaseHd3M3();
      case Hd3M5 => BaseHd3M5();
      case Hd3M6 => BaseHd3M6();
      case Hd4M5 => BaseHd4M5();
      case Hd4M6 => BaseHd4M6();
      case Hd4M6K12 => BaseHd4M6K12();
    }
  }

  lemma {:induction false} RowAt(f: Family, k: nat, n: nat, j: nat)
    requires Rows(f, k, n) && j < n
    ensures RowStep(f, k, j)
  {
    hide RowStep;
    if j < n - 1 { RowAt(f, k, n - 1, j); }
  }

  lemma {:induction false} BaseAt(f: Family, n: nat, j: nat)
    requires BaseRows(f, n) && j < n
    ensures j < |ParityBms(f, Shortest(f))| && ParityBms(f, Shortest(f))[j] == ParityWord(f, j, Shortest(f))
  {
    hide ParityBms, ParityWord, Shortest;
    if j < n - 1 { BaseAt(f, n - 1, j); }
  }

  /** The parity tables are what the columns say. */
  lemma {:induction false} TableRow(f: Family, k: nat, j: nat)
    requires Shortest(f) <= k <= Longest(f) && j < Parities(f)
    ensures j < |ParityBms(f, k)| && ParityBms(f, k)[j] == ParityWord(f, j, k)
    decreases k
  {
    hide *;
    if k == Shortest(f) {
      AllBase(f);
      BaseAt(f, Parities(f), j);
    } else {
      AllTables(f, k);
      RowAt(f, k, Parities(f), j);
      RowIs(f, k, j);
      TableRow(f, k - 1, j);
      WordNext(f, j, k - 1);
    }
  }

  lemma RowIs(f: Family, k: nat, j: nat)
    requires RowStep(f, k, j)
    ensures k > 0 && j < |ParityBms(f, k)| && j < |ParityBms(f, k - 1)|
    ensures ParityBms(f, k)[j] == if Bit(DataBm(f, k - 1), j) then Or(ParityBms(f, k - 1)[j], Single(k - 1)) else ParityBms(f, k - 1)[j]
  {
    hide ParityBms, DataBm, Single, Or, Bit;
  }

  lemma WordNext(f: Family, j: nat, n: nat)
    ensures ParityWord(f, j, n + 1) == if Bit(DataBm(f, n), j) then Or(ParityWord(f, j, n), Single(n)) else ParityWord(f, j, n)
  {
    hide DataBm, Single, Or, Bit;
    OrZero(ParityWord(f, j, n));
  }

  lemma OrZero(b: bv32)
    ensures Or(b, 0) == b
  {
  }

  lemma TableSize(f: Family, k: nat)
    ensures |ParityBms(f, k)| == Parities(f)
  {
  }

  lemma {:induction false} DifferentAt(f: Family, i: nat, n: nat, x: nat)
    requires Different(f, i, n) && x < n
    ensures DataBm(f, x) != DataBm(f, i)
  {
    hide DataBm;
    if x < n - 1 { DifferentAt(f, i, n - 1, x); }
  }

  lemma TableTransposed(f: Family, k: nat)
    requires Shortest(f) <= k <= Longest(f)
    ensures Sized(Table(f, k)) && Transposed(Table(f, k))
  {
    hide ParityBms, DataBm, Bit, ParityWord;
    TableSize(f, k);
    var c := Table(f, k);
    forall i: nat, j: nat | i < c.k && j < c.m ensures Bit(c.parityBms[j], i) <==> Bit(c.dataBms[i], j) {
      TableRow(f, k, j);
      ParityBit(f, j, k, i);
    }
    forall i: nat, j: nat | c.k <= i && j < c.m ensures !Bit(c.parityBms[j], i) {
      TableRow(f, k, j);
      ParityBit(f, j, k, i);
    }
  }

  lemma ColumnSize(f: Family, k: nat, i: nat)
    requires i < k <= Longest(f)
    ensures |Column(Table(f, k), i)| == Distance(f) - 1 && ShiftN(DataBm(f, i), Parities(f)) == 0
  {
    hide ParityBms, DataBm, Bit, PopCount, ShiftN, IsPair, IsTriple, Below, Different;
    AllGood(f, i);
    ColumnWeight(DataBm(f, i));
    BelowClear(DataBm(f, i), Parities(f));
    PopCountCard(DataBm(f, i), Parities(f));
  }

  lemma ColumnsDiffer(f: Family, k: nat, i: nat, j: nat)
    requires i < j < k <= Longest(f)
    ensures Column(Table(f, k), i) != Column(Table(f, k), j)
  {
    hide ParityBms, DataBm, Bit, ShiftN, IsPair, IsTriple, Below, Different;
    AllGood(f, j);
    DifferentAt(f, j, j, i);
    ColumnSize(f, k, i);
    ColumnSize(f, k, j);
    var a, b := DataBm(f, i), DataBm(f, j);
    if BitsBelow(a, Parities(f)) == BitsBelow(b, Parities(f)) {
      SameColumns(a, b, Parities(f));
    }
  }

  lemma SameColumns(a: bv32, b: bv32, m: nat)
    requires ShiftN(a, m) == 0 == ShiftN(b, m) && BitsBelow(a, m) == BitsBelow(b, m)
    ensures a == b
  {
    hide Bit, ShiftN;
    forall x: nat | x < m ensures Bit(a, x) == Bit(b, x) { assert x in BitsBelow(a, m) <==> x in BitsBelow(b, m); }
    SameBits(a, b, m);
  }

  /** Every table is a code that corrects one loss less than its distance. */
  lemma TableValid(f: Family, k: nat)
    requires Shortest(f) <= k <= Longest(f)
    ensures ValidCode(Table(f, k))
  {
    hide ParityBms, DataBm, Bit, Column;
    var c := Table(f, k);
    TableTransposed(f, k);
    forall i: nat | i < k ensures |Column(c, i)| == c.hd - 1 { ColumnSize(f, k, i); }
    forall i: nat, j: nat | i < j < k ensures Column(c, i) != Column(c, j) { ColumnsDiffer(f, k, i, j); }
  }

  /** Exactly these parameters have a code, and it is a valid one. */
  lemma InitValid(k: nat, m: nat, hd: nat)
    ensures InitXorHdCode(k, m, hd).Some? <==>
      (hd == 3 && ((m == 6 && 6 <= k <= 15) || (m == 5 && 5 <= k <= 10) || (m == 3 && k == 3)))
      || (hd == 4 && ((m == 6 && 6 <= k <= 20) || (m == 5 && 5 <= k <= 10)))
    ensures InitXorHdCode(k, m, hd).Some? ==>
      var c := InitXorHdCode(k, m, hd).value; c.k == k && c.m == m && c.hd == hd && ValidCode(c)
  {
    hide ValidCode, ParityBms, DataBms;
    if hd == 3 && m == 6 && 6 <= k <= 15 { TableValid(Hd3M6, k); }
    else if hd == 3 && m == 5 && 5 <= k <= 10 { TableValid(Hd3M5, k); }
    else if hd == 3 && m == 3 && k == 3 { TableValid(Hd3M3, k); }
    else if hd == 4 && m == 6 && k == 12 { TableValid(Hd4M6K12, k); }
    else if hd == 4 && m == 6 && 6 <= k <= 20 { TableValid(Hd4M6, k); }
    else if hd == 4 && m == 5 && 5 <= k <= 10 { TableValid(Hd4M5, k); }
  }

  // ----- the columns as lists of parities

  lemma PairBits(x: nat, y: nat, n: nat)
    requires x < n <= 31 && y < n
    ensures BitsBelow(Or(Single(x), Single(y)), n) == {x, y}
  {
    hide Bit, Or, Single;
    forall j: nat | j < n ensures Bit(Or(Single(x), Single(y)), j) <==> j in {x, y} {
      BitOr(Single(x), Single(y), j);
      BitSingle(x, j);
      BitSingle(y, j);
    }
  }

  lemma TripleBits(x: nat, y: nat, z: nat, n: nat)
    requires x < n <= 31 && y < n && z < n
    ensures BitsBelow(Or(Or(Single(x), Single(y)), Single(z)), n) == {x, y, z}
  {
    hide Bit, Or, Single;
    forall j: nat | j < n ensures Bit(Or(Or(Single(x), Single(y)), Single(z)), j) <==> j in {x, y, z} {
      BitOr(Or(Single(x), Single(y)), Single(z), j);
      BitOr(Single(x), Single(y), j);
      BitSingle(x, j);
      BitSingle(y, j);
      BitSingle(z, j);
    }
  }

  /** Column i of a table, given its bitmap. */
  lemma PairColumn(f: Family, k: nat, i: nat, b: bv32, x: nat, y: nat)
    requires i < k && DataBm(f, i) == b == Or(Single(x), Single(y)) && x < Parities(f) && y < Parities(f)
    ensures |Table(f, k).dataBms| == k && Column(Table(f, k), i) == {x, y}
  {
    hide Or, Single, BitsBelow, DataBm, ParityBms;
    PairBits(x, y, Parities(f));
  }

  lemma TripleColumn(f: Family, k: nat, i: nat, b: bv32, x: nat, y: nat, z: nat)
    requires i < k && DataBm(f, i) == b == Or(Or(Single(x), Single(y)), Single(z)) && x < Parities(f) && y < Parities(f) && z < Parities(f)
    ensures |Table(f, k).dataBms| == k && Column(Table(f, k), i) == {x, y, z}
  {
    hide Or, Single, BitsBelow, DataBm, ParityBms;
    TripleBits(x, y, z, Parities(f));
  }

  lemma Singles()
    ensures Single(0) == 1 && Single(1) == 2 && Single(2) == 4 && Single(3) == 8 && Single(4) == 16 && Single(5) == 32
  {
    assert Single(3) == 8;
  }

  lemma DataBmCount(f: Family, k: nat)
    ensures |Table(f, k).dataBms| == k
  {
    hide ParityBms;
  }

  lemma PairsAre()
    ensures 3 == Or(Single(0), Single(1))
    ensures 5 == Or(Single(0), Single(2))
    ensures 9 == Or(Single(0), Single(3))
    ensures 17 == Or(Single(0), Single(4))
    ensures 33 == Or(Single(0), Single(5))
    ensures 6 == Or(Single(1), Single(2))
    ensures 10 == Or(Single(1), Single(3))
    ensures 18 == Or(Single(1), Single(4))
    ensures 34 == Or(Single(1), Single(5))
    ensures 12 == Or(Single(2), Single(3))
    ensures 20 == Or(Single(2), Single(4))
    ensures 36 == Or(Single(2), Single(5))
    ensures 24 == Or(Single(3), Single(4))
    ensures 40 == Or(Single(3), Single(5))
    ensures 48 == Or(Single(4), Single(5))
  {
    Singles();
    hide Single;
  }

  lemma TriplesAre()
    ensures 7 == Or(Or(Single(0), Single(1)), Single(2))
    ensures 11 == Or(Or(Single(0), Single(1)), Single(3))
    ensures 19 == Or(Or(Single(0), Single(1)), Single(4))
    ensures 35 == Or(Or(Single(0), Single(1)), Single(5))
    ensures 13 == Or(Or(Single(0), Single(2)), Single(3))
    ensures 21 == Or(Or(Single(0), Single(2)), Single(4))
    ensures 37 == Or(Or(Single(0), Single(2)), Single(5))
    ensures 25 == Or(Or(Single(0), Single(3)), Single(4))
    ensures 41 == Or(Or(Single(0), Single(3)), Single(5))
    ensures 49 == Or(Or(Single(0), Single(4)), Single(5))
    ensures 14 == Or(Or(Single(1), Single(2)), Single(3))
    ensures 22 == Or(Or(Single(1), Single(2)), Single(4))
    ensures 38 == Or(Or(Single(1), Single(2)), Single(5))
    ensures 26 == Or(Or(Single(1), Single(3)), Single(4))
    ensures 42 == Or(Or(Single(1), Single(3)), Single(5))
    ensures 50 == Or(Or(Single(1), Single(4)), Single(5))
    ensures 28 == Or(Or(Single(2), Single(3)), Single(4))
    ensures 44 == Or(Or(Single(2), Single(3)), Single(5))
    ensures 52 == Or(Or(Single(2), Single(4)), Single(5))
    ensures 56 == Or(Or(Single(3), Single(4)), Single(5))
  {
    Singles();
    hide Single;
  }

  lemma Hd3M3Bms()
    ensures Parities(Hd3M3) == 3
    ensures DataBm(Hd3M3, 0) == 5
    ensures DataBm(Hd3M3, 1) == 6
    ensures DataBm(Hd3M3, 2) == 3
  {
  }

  lemma Hd3M3Is(k: nat)
    requires k == 3
    ensures InitXorHdCode(k, 3, 3) == Some(Table(Hd3M3, k))
  {
    hide Table;
  }

  /** The parities that each data fragment goes into, for 3 parities and distance 3. */
  lemma Hd3M3Columns(k: nat)
    requires k == 3
    ensures InitXorHdCode(k, 3, 3).Some? && |InitXorHdCode(k, 3, 3).value.dataBms| == k
    ensures var c := InitXorHdCode(k, 3, 3).value;
      && Column(c, 0) == {0, 2}
      && Column(c, 1) == {1, 2}
      && Column(c, 2) == {0, 1}
  {
    hide *;
    PairsAre();
    Hd3M3Bms();
    Hd3M3Is(k);
    DataBmCount(Hd3M3, k);
    PairColumn(Hd3M3, k, 0, 5, 0, 2);
    PairColumn(Hd3M3, k, 1, 6, 1, 2);
    PairColumn(Hd3M3, k, 2, 3, 0, 1);
  }

  lemma Hd3M5Bms()
    ensures Parities(Hd3M5) == 5
    ensures DataBm(Hd3M5, 0) == 5
    ensures DataBm(Hd3M5, 1) == 9
    ensures DataBm(Hd3M5, 2) == 10
    ensures DataBm(Hd3M5, 3) == 18
    ensures DataBm(Hd3M5, 4) == 20
    ensures DataBm(Hd3M5, 5) == 3
    ensures DataBm(Hd3M5, 6) == 12
    ensures DataBm(Hd3M5, 7) == 17
    ensures DataBm(Hd3M5, 8) == 6
    ensures DataBm(Hd3M5, 9) == 24
  {
  }

  lemma Hd3M5Is(k: nat)
    requires 5 <= k <= 10
    ensures InitXorHdCode(k, 5, 3) == Some(Table(Hd3M5, k))
  {
    hide Table;
  }

  /** The parities that each data fragment goes into, for 5 parities and distance 3. */
  lemma Hd3M5Columns(k: nat)
    requires 5 <= k <= 10
    ensures InitXorHdCode(k, 5, 3).Some? && |InitXorHdCode(k, 5, 3).value.dataBms| == k
    ensures var c := InitXorHdCode(k, 5, 3).value;
      && Column(c, 0) == {0, 2}
      && Column(c, 1) == {0, 3}
      && Column(c, 2) == {1, 3}
      && Column(c, 3) == {1, 4}
      && Column(c, 4) == {2, 4}
      && (5 < k ==> Column(c, 5) == {0, 1})
      && (6 < k ==> Column(c, 6) == {2, 3})
      && (7 < k ==> Column(c, 7) == {0, 4})
      && (8 < k ==> Column(c, 8) == {1, 2})
      && (9 < k ==> Column(c, 9) == {3, 4})
  {
    hide *;
    PairsAre();
    Hd3M5Bms();
    Hd3M5Is(k);
    DataBmCount(Hd3M5, k);
    PairColumn(Hd3M5, k, 0, 5, 0, 2);
    PairColumn(Hd3M5, k, 1, 9, 0, 3);
    PairColumn(Hd3M5, k, 2, 10, 1, 3);
    PairColumn(Hd3M5, k, 3, 18, 1, 4);
    PairColumn(Hd3M5, k, 4, 20, 2, 4);
    if 5 < k { PairColumn(Hd3M5, k, 5, 3, 0, 1); }
    if 6 < k { PairColumn(Hd3M5, k, 6, 12, 2, 3); }
    if 7 < k { PairColumn(Hd3M5, k, 7, 17, 0, 4); }
    if 8 < k { PairColumn(Hd3M5, k, 8, 6, 1, 2); }
    if 9 < k { PairColumn(Hd3M5, k, 9, 24, 3, 4); }
  }

  lemma Hd3M6BmsFirst()
    ensures Parities(Hd3M6) == 6
    ensures DataBm(Hd3M6, 0) == 17
    ensures DataBm(Hd3M6, 1) == 33
    ensures DataBm(Hd3M6, 2) == 36
    ensures DataBm(Hd3M6, 3) == 24
    ensures DataBm(Hd3M6, 4) == 10
    ensures DataBm(Hd3M6, 5) == 6
    ensures DataBm(Hd3M6, 6) == 3
  {
  }

  lemma Hd3M6BmsRest()
    ensures Parities(Hd3M6) == 6
    ensures DataBm(Hd3M6, 7) == 12
    ensures DataBm(Hd3M6, 8) == 48
    ensures DataBm(Hd3M6, 9) == 5
    ensures DataBm(Hd3M6, 10) == 18
    ensures DataBm(Hd3M6, 11) == 40
    ensures DataBm(Hd3M6, 12) == 9
    ensures DataBm(Hd3M6, 13) == 34
    ensures DataBm(Hd3M6, 14) == 20
  {
  }

  lemma Hd3M6Is(k: nat)
    requires 6 <= k <= 15
    ensures InitXorHdCode(k, 6, 3) == Some(Table(Hd3M6, k))
  {
    hide Table;
  }

  /** The parities that each of the first 7 data fragments goes into, for 6 parities and distance 3. */
  lemma Hd3M6ColumnsFirst(k: nat)
    requires 6 <= k <= 15
    ensures InitXorHdCode(k, 6, 3).Some? && |InitXorHdCode(k, 6, 3).value.dataBms| == k
    ensures var c := InitXorHdCode(k, 6, 3).value;
      && Column(c, 0) == {0, 4}
      && Column(c, 1) == {0, 5}
      && Column(c, 2) == {2, 5}
      && Column(c, 3) == {3, 4}
      && Column(c, 4) == {1, 3}
      && Column(c, 5) == {1, 2}
      && (6 < k ==> Column(c, 6) == {0, 1})
  {
    hide *;
    PairsAre();
    Hd3M6BmsFirst();
    Hd3M6Is(k);
    DataBmCount(Hd3M6, k);
    PairColumn(Hd3M6, k, 0, 17, 0, 4);
    PairColumn(Hd3M6, k, 1, 33, 0, 5);
    PairColumn(Hd3M6, k, 2, 36, 2, 5);
    PairColumn(Hd3M6, k, 3, 24, 3, 4);
    PairColumn(Hd3M6, k, 4, 10, 1, 3);
    PairColumn(Hd3M6, k, 5, 6, 1, 2);
    if 6 < k { PairColumn(Hd3M6, k, 6, 3, 0, 1); }
  }

  /** The parities that each of the other data fragments goes into, for 6 parities and distance 3. */
  lemma Hd3M6ColumnsRest(k: nat)
    requires 6 <= k <= 15
    ensures InitXorHdCode(k, 6, 3).Some? && |InitXorHdCode(k, 6, 3).value.dataBms| == k
    ensures var c := InitXorHdCode(k, 6, 3).value;
      && (7 < k ==> Column(c, 7) == {2, 3})
      && (8 < k ==> Column(c, 8) == {4, 5})
      && (9 < k ==> Column(c, 9) == {0, 2})
      && (10 < k ==> Column(c, 10) == {1, 4})
      && (11 < k ==> Column(c, 11) == {3, 5})
      && (12 < k ==> Column(c, 12) == {0, 3})
      && (13 < k ==> Column(c, 13) == {1, 5})
      && (14 < k ==> Column(c, 14) == {2, 4})
  {
    hide *;
    PairsAre();
    Hd3M6BmsRest();
    Hd3M6Is(k);
    DataBmCount(Hd3M6, k);
    if 7 < k { PairColumn(Hd3M6, k, 7, 12, 2, 3); }
    if 8 < k { PairColumn(Hd3M6, k, 8, 48, 4, 5); }
    if 9 < k { PairColumn(Hd3M6, k, 9, 5, 0, 2); }
    if 10 < k { PairColumn(Hd3M6, k, 10, 18, 1, 4); }
    if 11 < k { PairColumn(Hd3M6, k, 11, 40, 3, 5); }
    if 12 < k { PairColumn(Hd3M6, k, 12, 9, 0, 3); }
    if 13 < k { PairColumn(Hd3M6, k, 13, 34, 1, 5); }
    if 14 < k { PairColumn(Hd3M6, k, 14, 20, 2, 4); }
  }

  lemma Hd4M5Bms()
    ensures Parities(Hd4M5) == 5
    ensures DataBm(Hd4M5, 0) == 11
    ensures DataBm(Hd4M5, 1) == 13
    ensures DataBm(Hd4M5, 2) == 21
    ensures DataBm(Hd4M5, 3) == 22
    ensures DataBm(Hd4M5, 4) == 26
    ensures DataBm(Hd4M5, 5) == 7
    ensures DataBm(Hd4M5, 6) == 25
    ensures DataBm(Hd4M5, 7) == 14
    ensures DataBm(Hd4M5, 8) == 19
    ensures DataBm(Hd4M5, 9) == 28
  {
  }

  lemma Hd4M5Is(k: nat)
    requires 5 <= k <= 10
    ensures InitXorHdCode(k, 5, 4) == Some(Table(Hd4M5, k))
  {
    hide Table;
  }

  /** The parities that each data fragment goes into, for 5 parities and distance 4. */
  lemma Hd4M5Columns(k: nat)
    requires 5 <= k <= 10
    ensures InitXorHdCode(k, 5, 4).Some? && |InitXorHdCode(k, 5, 4).value.dataBms| == k
    ensures var c := InitXorHdCode(k, 5, 4).value;
      && Column(c, 0) == {0, 1, 3}
      && Column(c, 1) == {0, 2, 3}
      && Column(c, 2) == {0, 2, 4}
      && Column(c, 3) == {1, 2, 4}
      && Column(c, 4) == {1, 3, 4}
      && (5 < k ==> Column(c, 5) == {0, 1, 2})
      && (6 < k ==> Column(c, 6) == {0, 3, 4})
      && (7 < k ==> Column(c, 7) == {1, 2, 3})
      && (8 < k ==> Column(c, 8) == {0, 1, 4})
      && (9 < k ==> Column(c, 9) == {2, 3, 4})
  {
    hide *;
    TriplesAre();
    Hd4M5Bms();
    Hd4M5Is(k);
    DataBmCount(Hd4M5, k);
    TripleColumn(Hd4M5, k, 0, 11, 0, 1, 3);
    TripleColumn(Hd4M5, k, 1, 13, 0, 2, 3);
    TripleColumn(Hd4M5, k, 2, 21, 0, 2, 4);
    TripleColumn(Hd4M5, k, 3, 22, 1, 2, 4);
    TripleColumn(Hd4M5, k, 4, 26, 1, 3, 4);
    if 5 < k { TripleColumn(Hd4M5, k, 5, 7, 0, 1, 2); }
    if 6 < k { TripleColumn(Hd4M5, k, 6, 25, 0, 3, 4); }
    if 7 < k { TripleColumn(Hd4M5, k, 7, 14, 1, 2, 3); }
    if 8 < k { TripleColumn(Hd4M5, k, 8, 19, 0, 1, 4); }
    if 9 < k { TripleColumn(Hd4M5, k, 9, 28, 2, 3, 4); }
  }

  lemma Hd4M6BmsFirst()
    ensures Parities(Hd4M6) == 6
    ensures DataBm(Hd4M6, 0) == 25
    ensures DataBm(Hd4M6, 1) == 41
    ensures DataBm(Hd4M6, 2) == 49
    ensures DataBm(Hd4M6, 3) == 14
    ensures DataBm(Hd4M6, 4) == 22
    ensures DataBm(Hd4M6, 5) == 38
    ensures DataBm(Hd4M6, 6) == 7
    ensures DataBm(Hd4M6, 7) == 56
    ensures DataBm(Hd4M6, 8) == 11
    ensures DataBm(Hd4M6, 9) == 52
  {
  }

  lemma Hd4M6BmsRest()
    ensures Parities(Hd4M6) == 6
    ensures DataBm(Hd4M6, 10) == 19
    ensures DataBm(Hd4M6, 11) == 44
    ensures DataBm(Hd4M6, 12) == 35
    ensures DataBm(Hd4M6, 13) == 28
    ensures DataBm(Hd4M6, 14) == 13
    ensures DataBm(Hd4M6, 15) == 50
    ensures DataBm(Hd4M6, 16) == 21
    ensures DataBm(Hd4M6, 17) == 42
    ensures DataBm(Hd4M6, 18) == 37
    ensures DataBm(Hd4M6, 19) == 26
  {
  }

  lemma Hd4M6Is(k: nat)
    requires 6 <= k <= 20 && k != 12
    ensures InitXorHdCode(k, 6, 4) == Some(Table(Hd4M6, k))
  {
    hide Table;
  }

  /** The parities that each of the first 10 data fragments goes into, for 6 parities and distance 4. */
  lemma Hd4M6ColumnsFirst(k: nat)
    requires 6 <= k <= 20 && k != 12
    ensures InitXorHdCode(k, 6, 4).Some? && |InitXorHdCode(k, 6, 4).value.dataBms| == k
    ensures var c := InitXorHdCode(k, 6, 4).value;
      && Column(c, 0) == {0, 3, 4}
      && Column(c, 1) == {0, 3, 5}
      && Column(c, 2) == {0, 4, 5}
      && Column(c, 3) == {1, 2, 3}
      && Column(c, 4) == {1, 2, 4}
      && Column(c, 5) == {1, 2, 5}
      && (6 < k ==> Column(c, 6) == {0, 1, 2})
      && (7 < k ==> Column(c, 7) == {3, 4, 5})
      && (8 < k ==> Column(c, 8) == {0, 1, 3})
      && (9 < k ==> Column(c, 9) == {2, 4, 5})
  {
    hide *;
    TriplesAre();
    Hd4M6BmsFirst();
    Hd4M6Is(k);
    DataBmCount(Hd4M6, k);
    TripleColumn(Hd4M6, k, 0, 25, 0, 3, 4);
    TripleColumn(Hd4M6, k, 1, 41, 0, 3, 5);
    TripleColumn(Hd4M6, k, 2, 49, 0, 4, 5);
    TripleColumn(Hd4M6, k, 3, 14, 1, 2, 3);
    TripleColumn(Hd4M6, k, 4, 22, 1, 2, 4);
    TripleColumn(Hd4M6, k, 5, 38, 1, 2, 5);
    if 6 < k { TripleColumn(Hd4M6, k, 6, 7, 0, 1, 2); }
    if 7 < k { TripleColumn(Hd4M6, k, 7, 56, 3, 4, 5); }
    if 8 < k { TripleColumn(Hd4M6, k, 8, 11, 0, 1, 3); }
    if 9 < k { TripleColumn(Hd4M6, k, 9, 52, 2, 4, 5); }
  }

  /** The parities that each of the other data fragments goes into, for 6 parities and distance 4. */
  lemma Hd4M6ColumnsRest(k: nat)
    requires 6 <= k <= 20 && k != 12
    ensures InitXorHdCode(k, 6, 4).Some? && |InitXorHdCode(k, 6, 4).value.dataBms| == k
    ensures var c := InitXorHdCode(k, 6, 4).value;
      && (10 < k ==> Column(c, 10) == {0, 1, 4})
      && (11 < k ==> Column(c, 11) == {2, 3, 5})
      && (12 < k ==> Column(c, 12) == {0, 1, 5})
      && (13 < k ==> Column(c, 13) == {2, 3, 4})
      && (14 < k ==> Column(c, 14) == {0, 2, 3})
      && (15 < k ==> Column(c, 15) == {1, 4, 5})
      && (16 < k ==> Column(c, 16) == {0, 2, 4})
      && (17 < k ==> Column(c, 17) == {1, 3, 5})
      && (18 < k ==> Column(c, 18) == {0, 2, 5})
      && (19 < k ==> Column(c, 19) == {1, 3, 4})
  {
    hide *;
    TriplesAre();
    Hd4M6BmsRest();
    Hd4M6Is(k);
    DataBmCount(Hd4M6, k);
    if 10 < k { TripleColumn(Hd4M6, k, 10, 19, 0, 1, 4); }
    if 11 < k { TripleColumn(Hd4M6, k, 11, 44, 2, 3, 5); }
    if 12 < k { TripleColumn(Hd4M6, k, 12, 35, 0, 1, 5); }
    if 13 < k { TripleColumn(Hd4M6, k, 13, 28, 2, 3, 4); }
    if 14 < k { TripleColumn(Hd4M6, k, 14, 13, 0, 2, 3); }
    if 15 < k { TripleColumn(Hd4M6, k, 15, 50, 1, 4, 5); }
    if 16 < k { TripleColumn(Hd4M6, k, 16, 21, 0, 2, 4); }
    if 17 < k { TripleColumn(Hd4M6, k, 17, 42, 1, 3, 5); }
    if 18 < k { TripleColumn(Hd4M6, k, 18, 37, 0, 2, 5); }
    if 19 < k { TripleColumn(Hd4M6, k, 19, 26, 1, 3, 4); }
  }

  lemma Hd4M6K12BmsFirst()
    ensures Parities(Hd4M6K12) == 6
    ensures DataBm(Hd4M6K12, 0) == 7
    ensures DataBm(Hd4M6K12, 1) == 14
    ensures DataBm(Hd4M6K12, 2) == 28
    ensures DataBm(Hd4M6K12, 3) == 56
    ensures DataBm(Hd4M6K12, 4) == 49
    ensures DataBm(Hd4M6K12, 5) == 35
  {
  }

  lemma Hd4M6K12BmsRest()
    ensures Parities(Hd4M6K12) == 6
    ensures DataBm(Hd4M6K12, 6) == 13
    ensures DataBm(Hd4M6K12, 7) == 26
    ensures DataBm(Hd4M6K12, 8) == 52
    ensures DataBm(Hd4M6K12, 9) == 41
    ensures DataBm(Hd4M6K12, 10) == 19
    ensures DataBm(Hd4M6K12, 11) == 38
  {
  }

  lemma Hd4M6K12Is(k: nat)
    requires k == 12
    ensures InitXorHdCode(k, 6, 4) == Some(Table(Hd4M6K12, k))
  {
    hide Table;
  }

  /** The parities that each of the first 6 data fragments goes into, for 6 parities and distance 4 with twelve data fragments. */
  lemma Hd4M6K12ColumnsFirst(k: nat)
    requires k == 12
    ensures InitXorHdCode(k, 6, 4).Some? && |InitXorHdCode(k, 6, 4).value.dataBms| == k
    ensures var c := InitXorHdCode(k, 6, 4).value;
      && Column(c, 0) == {0, 1, 2}
      && Column(c, 1) == {1, 2, 3}
      && Column(c, 2) == {2, 3, 4}
      && Column(c, 3) == {3, 4, 5}
      && Column(c, 4) == {0, 4, 5}
      && Column(c, 5) == {0, 1, 5}
  {
    hide *;
    TriplesAre();
    Hd4M6K12BmsFirst();
    Hd4M6K12Is(k);
    DataBmCount(Hd4M6K12, k);
    TripleColumn(Hd4M6K12, k, 0, 7, 0, 1, 2);
    TripleColumn(Hd4M6K12, k, 1, 14, 1, 2, 3);
    TripleColumn(Hd4M6K12, k, 2, 28, 2, 3, 4);
    TripleColumn(Hd4M6K12, k, 3, 56, 3, 4, 5);
    TripleColumn(Hd4M6K12, k, 4, 49, 0, 4, 5);
    TripleColumn(Hd4M6K12, k, 5, 35, 0, 1, 5);
  }

  /** The parities that each of the other data fragments goes into, for 6 parities and distance 4 with twelve data fragments. */
  lemma Hd4M6K12ColumnsRest(k: nat)
    requires k == 12
    ensures InitXorHdCode(k, 6, 4).Some? && |InitXorHdCode(k, 6, 4).value.dataBms| == k
    ensures var c := InitXorHdCode(k, 6, 4).value;
      && Column(c, 6) == {0, 2, 3}
      && Column(c, 7) == {1, 3, 4}
      && Column(c, 8) == {2, 4, 5}
      && Column(c, 9) == {0, 3, 5}
      && Column(c, 10) == {0, 1, 4}
      && Column(c, 11) == {1, 2, 5}
  {
    hide *;
    TriplesAre();
    Hd4M6K12BmsRest();
    Hd4M6K12Is(k);
    DataBmCount(Hd4M6K12, k);
    TripleColumn(Hd4M6K12, k, 6, 13, 0, 2, 3);
    TripleColumn(Hd4M6K12, k, 7, 26, 1, 3, 4);
    TripleColumn(Hd4M6K12, k, 8, 52, 2, 4, 5);
    TripleColumn(Hd4M6K12, k, 9, 41, 0, 3, 5);
    TripleColumn(Hd4M6K12, k, 10, 19, 0, 1, 4);
    TripleColumn(Hd4M6K12, k, 11, 38, 1, 2, 5);
  }
}
