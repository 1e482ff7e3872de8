/** The plain size of a file can be recovered from its encrypted size: adding the signatures of one
    more level is undone by one rounded-up division.  This is what makes the two layout formulas of
    the source agree. */
module LayoutSizes {
  import opened Layout

  /** The size of a complete subtree of height `k`, in bytes. */
  function LevelSize(k: nat): nat { SECTOR * Units(k) }

  /** The number of signatures below `level`. */
  function CountSum(last: nat, level: nat): nat {
    if level == 0 then 0 else CountSum(last, level - 1) + Anc(last, level - 1) + 1
  }

  /** The size of the data together with the signatures of the levels below `level`. */
  function StageSize(size: nat, level: nat): nat
    requires size > 0
  {
    size + AUTH * CountSum(LastSector(size), level)
  }

  lemma LevelSizeStep(k: nat)
    ensures LevelSize(k + 1) == FANOUT * (LevelSize(k) + AUTH)
  {
  }

  lemma LevelSizeMonotone(j: nat, k: nat)
    requires j <= k
    ensures LevelSize(j) <= LevelSize(k)
    decreases k - j
  {
    if j < k { LevelSizeStep(j); LevelSizeMonotone(j + 1, k); }
  }

  /** With all complete subtrees of height `level` counted as full, the last one is started. */
  lemma {:induction false} StageBounds(size: nat, level: nat)
    requires size > 0
    ensures Anc(LastSector(size), level) * LevelSize(level) < StageSize(size, level)
    ensures StageSize(size, level) <= (Anc(LastSector(size), level) + 1) * LevelSize(level)
  {
    if level > 0 {
      StageBounds(size, level - 1);
      LevelSizeStep(level - 1);
      var last := LastSector(size);
      AncStep(last, level - 1);
      BoundStep(Anc(last, level - 1), Anc(last, level), LevelSize(level - 1), StageSize(size, level - 1));
    } else {
      assert LevelSize(0) == SECTOR;
    }
  }

  lemma BoundStep(a: nat, b: nat, l: nat, s: nat)
    requires b == a / FANOUT
    requires a * l < s <= (a + 1) * l
    ensures b * (FANOUT * (l + AUTH)) < s + AUTH * (a + 1) <= (b + 1) * (FANOUT * (l + AUTH))
  {
    MulLe(FANOUT * b, a, l + AUTH);
    MulLe(a + 1, FANOUT * (b + 1), l + AUTH);
    Regroup(b, l + AUTH);
    Regroup(b + 1, l + AUTH);
    assert a * (l + AUTH) == a * l + a * AUTH;
    assert (a + 1) * (l + AUTH) == (a + 1) * l + (a + 1) * AUTH;
  }

  lemma Regroup(b: nat, d: nat)
    ensures b * (FANOUT * d) == (FANOUT * b) * d
  {
  }

  lemma MulLe(x: nat, y: nat, z: nat)
    requires x <= y
    ensures x * z <= y * z
  {
  }

  /** One division recovers the number of signatures of `level`. */
  lemma {:induction false} CountRecovered(size: nat, level: nat)
    requires size > 0
    ensures var d := LevelSize(level) + AUTH;
            (StageSize(size, level + 1) + d - 1) / d == Anc(LastSector(size), level) + 1
  {
    StageBounds(size, level);
    var a, d, s := Anc(LastSector(size), level), LevelSize(level) + AUTH, StageSize(size, level + 1);
    assert a * d == a * LevelSize(level) + a * AUTH;
    assert (a + 1) * d == (a + 1) * LevelSize(level) + (a + 1) * AUTH;
    CeilDiv(s, d, a);
  }

  lemma CeilDiv(s: nat, d: nat, a: nat)
    requires d > 0 && a * d < s <= (a + 1) * d
    ensures (s + d - 1) / d == a + 1
  {
    var x := s + d - 1;
    var q := x / d;
    assert x == q * d + x % d;
    if q <= a { MulLe(q + 1, a + 1, d); assert false; }
    if q > a + 1 { MulLe(a + 2, q, d); assert false; }
  }

  /** Counting from the front (positions) and counting by level (sizes) give the same total. */
  lemma {:induction false} MasterOffIsStage(size: nat)
    requires size > 0
    ensures MasterOff(size) == StageSize(size, Levels(LastSector(size)))
  {
    CountsAgree(LastSector(size));
  }

  lemma {:induction false} CountsAgree(last: nat)
    ensures FANOUT * (Phys(last) - last) + TailCount(last, Levels(last)) == CountSum(last, Levels(last))
  {
    var t := Levels(last);
    if last < FANOUT {
      assert TailCount(last, 1) == TailCount(last, 0) + LastCount(last, 0);
      assert CountSum(last, 1) == CountSum(last, 0) + Anc(last, 0) + 1;
      assert Phys(last / FANOUT) == 0;
    } else {
      CountsAgree(last / FANOUT);
      ShiftCounts(last, t - 1);
    }
  }

  lemma ShiftCounts(last: nat, k: nat)
    ensures TailCount(last, k + 1) == last % FANOUT + 1 + TailCount(last / FANOUT, k)
    ensures CountSum(last, k + 1) == last + 1 + CountSum(last / FANOUT, k)
  {
    if k > 0 {
      ShiftCounts(last, k - 1);
      assert Anc(last, k) == Anc(last / FANOUT, k - 1);
    } else {
      assert TailCount(last, 1) == TailCount(last, 0) + LastCount(last, 0);
      assert CountSum(last, 1) == CountSum(last, 0) + Anc(last, 0) + 1;
    }
  }

  /** The number of levels is the least one whose complete tree holds the file. */
  lemma {:induction false} LevelFound(size: nat, level: nat)
    requires size > 0 && level >= 1
    ensures MasterOff(size) <= LevelSize(level) <==> level >= Levels(LastSector(size))
  {
    var last := LastSector(size);
    var t := Levels(last);
    MasterOffIsStage(size);
    StageBounds(size, t);
    if level >= t {
      LevelsAbove(last, t);
      LevelSizeMonotone(t, level);
    } else {
      LevelsAbove(last, t - 1);
      StageBounds(size, t - 1);
      LevelSizeMonotone(level, t - 1);
      MulLe(1, Anc(last, t - 1), LevelSize(t - 1));
    }
  }

  /** Files within the 32-bit sector range have at most 5 levels. */
  lemma LevelsBound(last: nat)
    requires last < MAX_SECTORS
    ensures 1 <= Levels(last) <= 5
  {
    if last >= FANOUT {
      var l1 := last / FANOUT;
      if l1 >= FANOUT {
        var l2 := l1 / FANOUT;
        if l2 >= FANOUT {
          var l3 := l2 / FANOUT;
          if l3 >= FANOUT {
            assert Levels(l3 / FANOUT) == 1;
            assert Levels(l3) == 2 && Levels(l2) == 3;
          }
        }
      }
    }
  }

  /** No two plain sizes have the same encrypted size. */
  lemma {:induction false} CryptoSizeInjective(a: nat, b: nat)
    requires CryptoSize(a) == CryptoSize(b)
    ensures a == b
  {
    CryptoSizeShape(a);
    CryptoSizeShape(b);
    if a > 0 && b > 0 {
      var t := Levels(LastSector(a));
      LevelFound(a, t);
      LevelFound(b, t);
      var t' := Levels(LastSector(b));
      LevelFound(a, t');
      LevelFound(b, t');
      MasterOffIsStage(a);
      MasterOffIsStage(b);
      StageInjective(a, b, t);
    }
  }

  lemma {:induction false} StageInjective(a: nat, b: nat, level: nat)
    requires a > 0 && b > 0 && StageSize(a, level) == StageSize(b, level)
    ensures a == b
  {
    if level > 0 {
      CountRecovered(a, level - 1);
      CountRecovered(b, level - 1);
      StageInjective(a, b, level - 1);
    }
  }

  /** Small files have no master record, and the encrypted size tells which files are small. */
  lemma CryptoSizeShape(size: nat)
    ensures size > 0 ==> CryptoSize(size) >= size + AUTH
    ensures NeedMaster(size) <==> CryptoSize(size) > SECTOR + AUTH
    ensures !NeedMaster(size) && size > 0 ==> CryptoSize(size) == size + AUTH
  {
    if size > 0 {
      var last := LastSector(size);
      MasterOffIsStage(size);
      assert CountSum(last, 1) == CountSum(last, 0) + Anc(last, 0) + 1;
      CountSumMonotone(last, 1, Levels(last));
    }
  }

  lemma CountSumMonotone(last: nat, j: nat, k: nat)
    requires j <= k
    ensures CountSum(last, j) <= CountSum(last, k)
    decreases k - j
  {
    if j < k { CountSumMonotone(last, j + 1, k); }
  }
}
