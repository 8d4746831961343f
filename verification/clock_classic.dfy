/** Textbook multi-pass CLOCK, as an independent reference for the replacer's single-pass
    sweep: the hand itself moves one frame per step, clearing the reference bit of every
    tracked frame it passes and evicting the first tracked frame whose bit is already clear.
    Two full turns always suffice. On every replacer state it makes the same choice, leaves
    the same reference bits and the same hand as `ClockReplacer.Victim`. */
module ClockClassic {
  import opened Wrappers
  import opened ClockReplacer

  /** At most `steps` moves of the textbook clock hand. */
  function Classic(c: Clock, steps: nat): (r: (Option<nat>, Clock))
    requires Valid(c) && 0 < Capacity(c)
    decreases steps
  {
    var n := Capacity(c);
    var h := c.hand;
    if steps == 0 then
      (None, c)
    else if c.inflag[h] && !c.reflag[h] then
      (Some(h), c.(inflag := c.inflag[h := false], hand := (h + 1) % n))
    else if c.inflag[h] then
      Classic(c.(reflag := c.reflag[h := false], hand := (h + 1) % n), steps - 1)
    else
      Classic(c.(hand := (h + 1) % n), steps - 1)
  }

  /** The textbook victim selection: two full turns of the hand. */
  function ClassicVictim(c: Clock): (r: (Option<nat>, Clock))
    requires Valid(c)
  {
    if Capacity(c) == 0 then (None, c) else Classic(c, 2 * Capacity(c))
  }

  /** Advancing the hand by one from `(h + j) mod n` reaches `(h + j + 1) mod n`. */
  lemma HandAdvance(h: nat, j: nat, n: nat)
    requires 0 < n && h < n && j < 2 * n
    ensures ((h + j) % n + 1) % n == (h + j + 1) % n
  {
    var a := h + j;
    if a < n {
      ModUnique(a, n, 0, a);
      if a + 1 < n {
        ModUnique(a + 1, n, 0, a + 1);
      } else {
        ModUnique(a + 1, n, 1, 0);
      }
    } else if a < 2 * n {
      ModUnique(a, n, 1, a - n);
      if a + 1 < 2 * n {
        ModUnique(a + 1, n, 1, a + 1 - n);
      } else {
        ModUnique(a + 1, n, 2, 0);
      }
    } else {
      ModUnique(a, n, 2, a - 2 * n);
      ModUnique(a + 1, n, 2, a + 1 - 2 * n);
    }
  }

  /** The state after `j` moves of the textbook hand, started on `c0`. In the first turn
      (`j <= n`) the frames passed have been aged and none was ready; in the second turn
      every tracked frame has been aged and none of the frames passed again is tracked. */
  ghost predicate ClassicInv(c0: Clock, c: Clock, j: nat)
  {
    && Valid(c0) && 0 < Capacity(c0) && j <= 2 * Capacity(c0)
    && c.inflag == c0.inflag && |c.reflag| == |c0.reflag|
    && c.hand == (c0.hand + j) % Capacity(c0)
    && (j <= Capacity(c0) ==>
          && AgedBefore(c0, j, c)
          && forall i :: 0 <= i < Capacity(c0) && Offset(c0, i) < j ==> !Ready(c0, i))
    && (j > Capacity(c0) ==>
          && !AnyReady(c0)
          && AgedBefore(c0, Capacity(c0), c)
          && forall i :: 0 <= i < Capacity(c0) && Offset(c0, i) < j - Capacity(c0) ==> !c0.inflag[i])
  }

  /** Where the hand stands after `j` moves, as an offset from where it started. */
  lemma HandOffset(c0: Clock, j: nat)
    requires Valid(c0) && 0 < Capacity(c0) && j < 2 * Capacity(c0)
    ensures (c0.hand + j) % Capacity(c0) < Capacity(c0)
    ensures Offset(c0, (c0.hand + j) % Capacity(c0)) == j % Capacity(c0)
  {
    var n := Capacity(c0);
    if j < n {
      ModUnique(j, n, 0, j);
      SweepIndexOffset(c0, j);
    } else {
      ModUnique(j, n, 1, j - n);
      if c0.hand + j < 2 * n {
        ModUnique(c0.hand + j, n, 1, c0.hand + j - n);
        ModUnique(c0.hand + j - n, n, 0, c0.hand + j - n);
      } else {
        ModUnique(c0.hand + j, n, 2, c0.hand + j - 2 * n);
        ModUnique(c0.hand + j - n, n, 1, c0.hand + j - 2 * n);
      }
      SweepIndexOffset(c0, j - n);
    }
  }

  /** The hand is back where it started after two full turns. */
  lemma TwoTurns(c0: Clock)
    requires Valid(c0) && 0 < Capacity(c0)
    ensures (c0.hand + 2 * Capacity(c0)) % Capacity(c0) == c0.hand
  {
    ModUnique(c0.hand + 2 * Capacity(c0), Capacity(c0), 2, c0.hand);
  }

  lemma ClassicStep(c0: Clock, c: Clock, j: nat)
    requires ClassicInv(c0, c, j) && j < 2 * Capacity(c0)
    requires !(c.inflag[c.hand] && !c.reflag[c.hand])
    ensures var h := c.hand;
            var n := Capacity(c0);
            if c.inflag[h] then
              ClassicInv(c0, c.(reflag := c.reflag[h := false], hand := (h + 1) % n), j + 1)
            else
              ClassicInv(c0, c.(hand := (h + 1) % n), j + 1)
  {
    var n := Capacity(c0);
    HandOffset(c0, j);
    HandAdvance(c0.hand, j, n);
    if j < n {
      ModUnique(j, n, 0, j);
      if c.inflag[c.hand] {
        assert c0.reflag[c.hand];
      }
    } else {
      ModUnique(j, n, 1, j - n);
      assert !c.inflag[c.hand];
    }
  }

  lemma ClassicStop(c0: Clock, c: Clock, j: nat)
    requires ClassicInv(c0, c, j) && j < 2 * Capacity(c0)
    requires c.inflag[c.hand] && !c.reflag[c.hand]
    ensures ClockSweep(c0, Some(c.hand), c.(inflag := c.inflag[c.hand := false],
                                            hand := (c.hand + 1) % Capacity(c0)))
  {
    var n := Capacity(c0);
    var h := c.hand;
    HandOffset(c0, j);
    assert !NoneTracked(c0);
    if j < n {
      ModUnique(j, n, 0, j);
      assert Ready(c0, h);
      assert NearestReady(c0, h);
    } else {
      ModUnique(j, n, 1, j - n);
      assert NearestTracked(c0, h);
    }
  }

  lemma {:induction false} ClassicMeetsClockSweep(c0: Clock, c: Clock, j: nat)
    requires ClassicInv(c0, c, j)
    ensures Valid(c)
    ensures ClockSweep(c0, Classic(c, 2 * Capacity(c0) - j).0, Classic(c, 2 * Capacity(c0) - j).1)
    decreases 2 * Capacity(c0) - j
  {
    var n := Capacity(c0);
    var h := c.hand;
    if j == 2 * n {
      TwoTurns(c0);
      assert NoneTracked(c0);
      assert c.reflag == c0.reflag;
    } else if c.inflag[h] && !c.reflag[h] {
      ClassicStop(c0, c, j);
    } else {
      ClassicStep(c0, c, j);
      var c1 := if c.inflag[h] then c.(reflag := c.reflag[h := false], hand := (h + 1) % n)
                else c.(hand := (h + 1) % n);
      ClassicMeetsClockSweep(c0, c1, j + 1);
      assert Classic(c, 2 * n - j) == Classic(c1, 2 * n - (j + 1));
    }
  }

  /** `ClockSweep` determines the outcome completely: the victim, the tracked flags, the
      reference bits and the hand. */
  lemma ClockSweepDeterministic(c: Clock, v1: Option<nat>, c1: Clock, v2: Option<nat>, c2: Clock)
    requires Valid(c) && ClockSweep(c, v1, c1) && ClockSweep(c, v2, c2)
    ensures v1 == v2 && c1 == c2
  {
    if v1.Some? && v2.Some? {
      assert Offset(c, v1.value) == Offset(c, v2.value);
      assert c1.reflag == c2.reflag;
    }
  }

  /** The replacer's single-pass sweep with its remembered fallback evicts the same frame
      and leaves the same state as textbook multi-pass CLOCK. */
  lemma SinglePassMatchesClassic(c: Clock)
    requires Valid(c)
    ensures Victim(c) == ClassicVictim(c)
  {
    if Capacity(c) > 0 {
      HandOffset(c, 0);
      ModUnique(c.hand, Capacity(c), 0, c.hand);
      assert ClassicInv(c, c, 0);
      ClassicMeetsClockSweep(c, c, 0);
      var r := Victim(c);
      var s := ClassicVictim(c);
      ClockSweepDeterministic(c, r.0, r.1, s.0, s.1);
    }
  }
}
