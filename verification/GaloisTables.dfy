/** The log and antilog tables, and multiplication and division by table lookup. */
module GaloisTables {
  import opened Galois16
  import opened GaloisField

  class Tables {
    var logTable: array?<int>
    var ilogBegin: array?<bv16>
    var initCounter: int

    /** log inverts the powers of 2; ilog holds them three times over. */
    static ghost predicate Holds(log: array<int>, ilog: array<bv16>, n: nat)
      requires n <= GROUP_SIZE
      reads log, ilog
    {
      && log.Length == FIELD_SIZE && ilog.Length == 3 * FIELD_SIZE
      && (forall i: nat {:trigger Power(i)} :: i < n ==>
           && log[Key(Power(i))] == i
           && ilog[i] == Power(i) && ilog[i + GROUP_SIZE] == Power(i) && ilog[i + 2 * GROUP_SIZE] == Power(i))
    }

    ghost predicate Built()
      reads this, logTable, ilogBegin
    {
      logTable != null && ilogBegin != null && Holds(logTable, ilogBegin, GROUP_SIZE)
    }

    ghost predicate Valid()
      reads this, logTable, ilogBegin
    {
      && initCounter >= 0
      && (if initCounter == 0 then logTable == null && ilogBegin == null else Built())
    }

    constructor ()
      ensures Valid() && initCounter == 0
    {
      logTable, ilogBegin, initCounter := null, null, 0;
    }

    /** The body of the table loop: x is the i-th power. */
    static method StoreEntry(log: array<int>, ilog: array<bv16>, i: nat, x: bv16)
      requires i < GROUP_SIZE && Holds(log, ilog, i) && x == Power(i)
      requires log as object != ilog
      modifies log, ilog
      ensures Holds(log, ilog, i + 1)
    {
      hide Power, Key;
      forall j: nat {:trigger Power(j)} | j < i ensures Key(Power(j)) != Key(x) {
        PowersDistinct(j, i);
        if Key(Power(j)) == Key(x) { KeyInjective(Power(j), x); }
      }
      log[Key(x)] := i;
      ilog[i] := x;
      ilog[i + GROUP_SIZE] := x;
      ilog[i + GROUP_SIZE * 2] := x;
    }

    static method BuildTables() returns (log: array<int>, ilog: array<bv16>)
      ensures fresh(log) && fresh(ilog)
      ensures Holds(log, ilog, GROUP_SIZE)
    {
      hide Double, Power;
      log, ilog := new int[FIELD_SIZE], new bv16[3 * FIELD_SIZE];
      var x: bv16 := 1;
      PowerZero();
      for i := 0 to GROUP_SIZE
        invariant x == Power(i)
        invariant Holds(log, ilog, i)
      {
        StoreEntry(log, ilog, i, x);
        PowerNext(i);
        x := Double(x);
      }
    }

    /** Builds the tables on the first call and only counts the others. */
    method InitTables()
      requires Valid()
      modifies this
      ensures Valid() && initCounter == old(initCounter) + 1
    {
      initCounter := initCounter + 1;
      if initCounter - 1 > 0 {
        return;
      }
      logTable, ilogBegin := BuildTables();
    }

    method DeinitTables()
      requires Valid()
      modifies this
      ensures Valid() && initCounter == if old(initCounter) == 0 then 0 else old(initCounter) - 1
    {
      initCounter := initCounter - 1;
      if initCounter < 0 {
        initCounter := 0;
      } else if initCounter > 0 {
        return;
      } else {
        logTable, ilogBegin := null, null;
      }
    }

    /** ilogTable points GROUP_SIZE entries into its buffer, so that sums and differences of logs stay inside. */
    method Mult(x: bv16, y: bv16) returns (r: bv16)
      requires Built()
      ensures r == GfMul(x, y)
    {
      hide Power, GfMul, Key;
      GfMulZero(x);
      GfMulZero(y);
      if x == 0 || y == 0 {
        return 0;
      }
      ghost var i, j := Log(x), Log(y);
      assert Power(i) == x && Power(j) == y;
      var sum := logTable[Key(x)] + logTable[Key(y)];
      PowerAdd(i, j);
      PowerWraps(i + j);
      r := ilogBegin[GROUP_SIZE + sum];
    }

    /** x / y, or -1 for a division by zero. */
    method Div(x: bv16, y: bv16) returns (r: int)
      requires Built()
      ensures x == 0 ==> r == 0
      ensures x != 0 && y == 0 ==> r == -1
      ensures y != 0 ==> r == GfMul(x, GfInv(y)) as int
    {
      hide Power, GfMul, GfInv, Key;
      GfMulZero(GfInv(y));
      if x == 0 {
        return 0;
      }
      if y == 0 {
        return -1;
      }
      ghost var i, j := Log(x), Log(y);
      assert Power(i) == x && Power(j) == y;
      var diff := logTable[Key(x)] - logTable[Key(y)];
      QuotientPower(x, y);
      r := ilogBegin[GROUP_SIZE + diff] as int;
    }

    method Inverse(x: bv16) returns (r: int)
      requires Built()
      ensures r == if x == 0 then -1 else GfInv(x) as int
    {
      hide GfMul, GfInv;
      r := Div(1, x);
      GfMulOne(GfInv(x));
    }
  }

  lemma PowerNext(i: nat)
    ensures Power(i + 1) == Double(Power(i))
  {
  }

  /** ilogBegin[n + GROUP_SIZE] for an exponent that overflowed once. */
  lemma PowerWraps(n: nat)
    requires n < 2 * GROUP_SIZE
    ensures n < GROUP_SIZE || Power(n) == Power(n - GROUP_SIZE)
  {
    hide Power;
    KnownNonPeriods();
    if n >= GROUP_SIZE { PowerCancel(GROUP_SIZE, n - GROUP_SIZE); }
  }

  lemma QuotientPower(x: bv16, y: bv16)
    requires x != 0 && y != 0
    ensures GfMul(x, GfInv(y)) == Power((Log(x) - Log(y) + GROUP_SIZE) % GROUP_SIZE)
    ensures GfMul(x, GfInv(y)) == Power(Log(x) - Log(y) + GROUP_SIZE)
  {
    hide Power, GfMul, GfInv;
    var i, j := Log(x), Log(y);
    KnownNonPeriods();
    var inv := Power(GROUP_SIZE - j);
    PowerAdd(j, GROUP_SIZE - j);
    assert GfMul(y, inv) == 1;
    InverseUnique(y, inv);
    PowerAdd(i, GROUP_SIZE - j);
    PowerWraps(i - j + GROUP_SIZE);
  }

  lemma InverseUnique(y: bv16, z: bv16)
    requires y != 0 && GfMul(y, z) == 1
    ensures GfInv(y) == z
  {
    hide GfMul, GfInv;
    MulInverse(y);
    GfMulComm(y, GfInv(y));
    GfMulAssoc(GfInv(y), y, z);
    GfMulOne(z);
    GfMulOne(GfInv(y));
  }
}
