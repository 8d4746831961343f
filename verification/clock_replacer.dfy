/** The clock replacement policy of the buffer pool (src/buffer/clock_replacer.cpp).

    The replacer keeps, for every frame of the pool, a "tracked" flag (the frame is an
    eviction candidate) and a reference bit (its second chance), plus a circular hand.
    `Victim` is a single bounded sweep of at most N positions starting at the hand that
    remembers, as a fallback, the first tracked frame whose reference bit it cleared. */
module ClockReplacer {
  import opened Wrappers

  /** `inflag[i]`: frame i is tracked; `reflag[i]`: its reference bit; `hand`: sweep start. */
  datatype Clock = Clock(inflag: seq<bool>, reflag: seq<bool>, hand: nat)

  /** Both vectors have one entry per frame and the hand points into them. */
  predicate Valid(c: Clock) {
    |c.reflag| == |c.inflag| && (c.hand < |c.inflag| || c.hand == 0)
  }

  /** The number of frames the replacer was built for. */
  function Capacity(c: Clock): nat {
    |c.inflag|
  }

  /** Number of true entries of a boolean vector. */
  function CountTrue(s: seq<bool>): (n: nat)
    ensures n <= |s|
  {
    if |s| == 0 then 0 else CountTrue(s[..|s| - 1]) + (if s[|s| - 1] then 1 else 0)
  }

  /** The number of tracked frames; `Size` computes it. */
  function TrackedCount(c: Clock): nat {
    CountTrue(c.inflag)
  }

  lemma {:induction false} CountTrueZero(s: seq<bool>)
    ensures CountTrue(s) == 0 <==> forall i :: 0 <= i < |s| ==> !s[i]
  {
    if |s| > 0 {
      CountTrueZero(s[..|s| - 1]);
      assert forall i :: 0 <= i < |s| - 1 ==> s[..|s| - 1][i] == s[i];
    }
  }

  /** Overwriting one entry changes the count by exactly the difference of the two entries. */
  lemma {:induction false} CountTrueUpdate(s: seq<bool>, i: nat, b: bool)
    requires i < |s|
    ensures CountTrue(s[i := b]) == CountTrue(s) - (if s[i] then 1 else 0) + (if b then 1 else 0)
  {
    var t := s[i := b];
    var n := |s| - 1;
    if i == n {
      assert t[..n] == s[..n];
    } else {
      assert t[..n] == s[..n][i := b];
      CountTrueUpdate(s[..n], i, b);
    }
  }

  // ---------------------------------------------------------------------------
  // Construction

  /** A replacer for `n` frames: nothing tracked, every reference bit clear, hand at 0. */
  function Init(n: nat): (c: Clock)
    ensures Valid(c) && Capacity(c) == n && c.hand == 0
    ensures TrackedCount(c) == 0
    ensures forall i :: 0 <= i < n ==> !c.reflag[i]
  {
    var c := Clock(seq(n, _ => false), seq(n, _ => false), 0);
    CountTrueZero(c.inflag);
    c
  }

  // ---------------------------------------------------------------------------
  // Sweep order

  /** How many steps after the hand the sweep reaches frame `i`. */
  function Offset(c: Clock, i: nat): (k: nat)
    requires Valid(c) && i < Capacity(c)
    ensures k < Capacity(c)
  {
    if i >= c.hand then i - c.hand else i + Capacity(c) - c.hand
  }

  lemma MulBelow(n: int, d: int)
    requires n > 0
    ensures d >= 1 ==> d * n >= n
    ensures d <= -1 ==> d * n <= -n
  {
  }

  /** Euclidean division is unique. */
  lemma ModUnique(a: int, n: int, q: int, r: int)
    requires n > 0 && 0 <= r < n && a == q * n + r
    ensures a % n == r
  {
    var d := q - a / n;
    assert a == n * (a / n) + a % n;
    assert d * n == a % n - r;
    MulBelow(n, d);
  }

  /** The frame the sweep visits at step `k` is the one at offset `k` from the hand. */
  lemma SweepIndexOffset(c: Clock, k: nat)
    requires Valid(c) && k < Capacity(c)
    ensures (c.hand + k) % Capacity(c) < Capacity(c)
    ensures Offset(c, (c.hand + k) % Capacity(c)) == k
  {
    var n := Capacity(c);
    if c.hand + k < n {
      ModUnique(c.hand + k, n, 0, c.hand + k);
    } else {
      ModUnique(c.hand + k, n, 1, c.hand + k - n);
    }
  }

  /** Frame `i` is tracked and its reference bit is clear: it can be evicted at once. */
  ghost predicate Ready(c: Clock, i: nat)
    requires Valid(c) && i < Capacity(c)
  {
    c.inflag[i] && !c.reflag[i]
  }

  ghost predicate AnyReady(c: Clock)
    requires Valid(c)
  {
    exists i :: 0 <= i < Capacity(c) && Ready(c, i)
  }

  ghost predicate NoneTracked(c: Clock)
    requires Valid(c)
  {
    forall i :: 0 <= i < Capacity(c) ==> !c.inflag[i]
  }

  /** `v` is a ready frame and no ready frame comes before it in sweep order. */
  ghost predicate NearestReady(c: Clock, v: nat)
    requires Valid(c)
  {
    v < Capacity(c) && Ready(c, v)
    && forall i :: 0 <= i < Capacity(c) && Ready(c, i) ==> Offset(c, v) <= Offset(c, i)
  }

  /** `v` is a tracked frame and no tracked frame comes before it in sweep order. */
  ghost predicate NearestTracked(c: Clock, v: nat)
    requires Valid(c)
  {
    v < Capacity(c) && c.inflag[v]
    && forall i :: 0 <= i < Capacity(c) && c.inflag[i] ==> Offset(c, v) <= Offset(c, i)
  }

  /** The reference bits of `c'` are those of `c` with the bits of the tracked frames the
      sweep passed before step `stop` cleared, and every other bit unchanged. */
  ghost predicate AgedBefore(c: Clock, stop: nat, c': Clock)
    requires Valid(c)
  {
    |c'.reflag| == |c.reflag|
    && forall i :: 0 <= i < Capacity(c) ==>
         c'.reflag[i] == (c.reflag[i] && !(c.inflag[i] && Offset(c, i) < stop))
  }

  /** `c'` is `c` with victim `v` untracked and the hand just past it. */
  ghost predicate Removes(c: Clock, v: nat, c': Clock)
    requires Valid(c)
  {
    v < Capacity(c) && c.inflag[v]
    && c'.inflag == c.inflag[v := false]
    && c'.hand == (v + 1) % Capacity(c)
  }

  /** The outcome of one call of `Victim` on `c`, stated independently of the loop:
      - no victim exactly when nothing is tracked, and then nothing changes;
      - otherwise the victim is removed from the tracked set and the hand moves past it;
      - if some tracked frame has a clear reference bit, the victim is the first such frame
        in sweep order and only the frames passed before it are aged;
      - otherwise every tracked frame is aged and the victim is the first tracked frame
        in sweep order (the remembered fallback). */
  ghost predicate ClockSweep(c: Clock, victim: Option<nat>, c': Clock)
    requires Valid(c)
  {
    && (victim.None? <==> NoneTracked(c))
    && (victim.None? ==> c' == c)
    && (victim.Some? ==> Removes(c, victim.value, c'))
    && (victim.Some? && AnyReady(c) ==>
          NearestReady(c, victim.value) && AgedBefore(c, Offset(c, victim.value), c'))
    && (!AnyReady(c) ==>
          AgedBefore(c, Capacity(c), c') && (victim.Some? ==> NearestTracked(c, victim.value)))
  }

  // ---------------------------------------------------------------------------
  // Victim

  /** The sweep loop of `Victim` from step `i` on, `candi` being the remembered fallback
      (-1 when none): each step visits frame (hand + i) mod N. */
  function Sweep(c: Clock, i: nat, candi: int): (r: (Option<nat>, Clock))
    requires Valid(c) && 0 < Capacity(c) && i <= Capacity(c)
    requires candi == -1 || 0 <= candi < Capacity(c)
    decreases Capacity(c) - i
  {
    var n := Capacity(c);
    if i == n then
      if candi == -1 then (None, c)
      else (Some(candi as nat), c.(hand := (candi + 1) % n, inflag := c.inflag[candi := false]))
    else
      var idx := (c.hand + i) % n;
      if c.inflag[idx] && !c.reflag[idx] then
        (Some(idx), c.(hand := (idx + 1) % n, inflag := c.inflag[idx := false]))
      else if c.inflag[idx] && c.reflag[idx] then
        Sweep(c.(reflag := c.reflag[idx := false]), i + 1, if candi == -1 then idx else candi)
      else
        Sweep(c, i + 1, candi)
  }

  /** What holds of the state `c` reached after `i` steps of the sweep that started on `c0`. */
  ghost predicate SweepInv(c0: Clock, c: Clock, i: nat, candi: int)
  {
    && Valid(c0) && 0 < Capacity(c0) && i <= Capacity(c0)
    && c.inflag == c0.inflag && c.hand == c0.hand
    && (forall j :: 0 <= j < Capacity(c0) && Offset(c0, j) < i ==> !Ready(c0, j))
    && AgedBefore(c0, i, c)
    && (candi == -1 ==> forall j :: 0 <= j < Capacity(c0) && Offset(c0, j) < i ==> !c0.inflag[j])
    && (candi != -1 ==> 0 <= candi < Capacity(c0) && Offset(c0, candi) < i && NearestTracked(c0, candi))
  }

  /** The sweep ends without meeting a ready frame: the fallback, if any, is the victim. */
  lemma SweepEnd(c0: Clock, c: Clock, candi: int)
    requires SweepInv(c0, c, Capacity(c0), candi)
    ensures Valid(Sweep(c, Capacity(c0), candi).1)
    ensures Capacity(Sweep(c, Capacity(c0), candi).1) == Capacity(c0)
    ensures ClockSweep(c0, Sweep(c, Capacity(c0), candi).0, Sweep(c, Capacity(c0), candi).1)
  {
    assert !AnyReady(c0);
    if candi == -1 {
      assert NoneTracked(c0);
      assert c.reflag == c0.reflag;
    } else {
      assert !NoneTracked(c0);
    }
  }

  /** The sweep stops at step `i` on a ready frame. */
  lemma SweepStop(c0: Clock, c: Clock, i: nat, candi: int)
    requires SweepInv(c0, c, i, candi) && i < Capacity(c0)
    requires var idx := (c.hand + i) % Capacity(c0); c.inflag[idx] && !c.reflag[idx]
    ensures Valid(Sweep(c, i, candi).1) && Capacity(Sweep(c, i, candi).1) == Capacity(c0)
    ensures ClockSweep(c0, Sweep(c, i, candi).0, Sweep(c, i, candi).1)
  {
    var idx := (c.hand + i) % Capacity(c0);
    SweepIndexOffset(c0, i);
    assert Ready(c0, idx);
    assert NearestReady(c0, idx);
    assert !NoneTracked(c0);
  }

  /** The state after a step of the sweep that does not stop: a tracked frame with its
      reference bit set is aged and, if it is the first, remembered as the fallback. */
  function NextScan(c: Clock, i: nat, candi: int): (Clock, int)
    requires Valid(c) && 0 < Capacity(c) && i < Capacity(c)
  {
    var idx := (c.hand + i) % Capacity(c);
    if c.inflag[idx] && c.reflag[idx] then
      (c.(reflag := c.reflag[idx := false]), if candi == -1 then idx else candi)
    else
      (c, candi)
  }

  /** One step of the sweep that does not stop keeps the invariant. */
  lemma SweepStep(c0: Clock, c: Clock, i: nat, candi: int)
    requires SweepInv(c0, c, i, candi) && i < Capacity(c0)
    requires var idx := (c.hand + i) % Capacity(c0); !(c.inflag[idx] && !c.reflag[idx])
    ensures SweepInv(c0, NextScan(c, i, candi).0, i + 1, NextScan(c, i, candi).1)
    ensures Sweep(c, i, candi) == Sweep(NextScan(c, i, candi).0, i + 1, NextScan(c, i, candi).1)
  {
    var idx := (c.hand + i) % Capacity(c0);
    SweepIndexOffset(c0, i);
    if c.inflag[idx] {
      assert c0.reflag[idx];
    }
  }

  lemma {:induction false} SweepMeetsClockSweep(c0: Clock, c: Clock, i: nat, candi: int)
    requires SweepInv(c0, c, i, candi)
    ensures Valid(c) && Capacity(c) == Capacity(c0)
    ensures var r := Sweep(c, i, candi); Valid(r.1) && Capacity(r.1) == Capacity(c0) && ClockSweep(c0, r.0, r.1)
    decreases Capacity(c0) - i
  {
    var n := Capacity(c0);
    if i == n {
      SweepEnd(c0, c, candi);
    } else if c.inflag[(c.hand + i) % n] && !c.reflag[(c.hand + i) % n] {
      SweepStop(c0, c, i, candi);
    } else {
      SweepStep(c0, c, i, candi);
      var (c1, candi1) := NextScan(c, i, candi);
      SweepMeetsClockSweep(c0, c1, i + 1, candi1);
    }
  }

  /** `Victim`: pick a frame to evict, ageing the reference bits the sweep passes. */
  function Victim(c: Clock): (r: (Option<nat>, Clock))
    requires Valid(c)
    ensures Valid(r.1) && Capacity(r.1) == Capacity(c)
    ensures ClockSweep(c, r.0, r.1)
    ensures r.0.Some? ==> TrackedCount(r.1) == TrackedCount(c) - 1
  {
    if Capacity(c) == 0 then
      (None, c)
    else
      SweepMeetsClockSweep(c, c, 0, -1);
      var r := Sweep(c, 0, -1);
      if r.0.Some? then
        CountTrueUpdate(c.inflag, r.0.value, false);
        r
      else
        r
  }

  // ---------------------------------------------------------------------------
  // Pin, Unpin, Size

  /** `Pin`: stop tracking a frame; an out-of-range frame id is ignored. */
  function Pin(c: Clock, frame: int): (c': Clock)
    requires Valid(c)
    ensures Valid(c') && Capacity(c') == Capacity(c)
    ensures c'.reflag == c.reflag && c'.hand == c.hand
    ensures 0 <= frame < Capacity(c) ==> !c'.inflag[frame]
    ensures forall i :: 0 <= i < Capacity(c) && i != frame ==> c'.inflag[i] == c.inflag[i]
    ensures 0 <= frame < Capacity(c) ==>
              TrackedCount(c') == TrackedCount(c) - (if c.inflag[frame] then 1 else 0)
    ensures !(0 <= frame < Capacity(c)) ==> c' == c
  {
    if frame >= Capacity(c) || frame < 0 then c
    else
      CountTrueUpdate(c.inflag, frame, false);
      c.(inflag := c.inflag[frame := false])
  }

  /** `Unpin`: track a frame and give it a second chance; an out-of-range frame id is ignored. */
  function Unpin(c: Clock, frame: int): (c': Clock)
    requires Valid(c)
    ensures Valid(c') && Capacity(c') == Capacity(c) && c'.hand == c.hand
    ensures 0 <= frame < Capacity(c) ==> c'.inflag[frame] && c'.reflag[frame]
    ensures forall i :: 0 <= i < Capacity(c) && i != frame ==>
              c'.inflag[i] == c.inflag[i] && c'.reflag[i] == c.reflag[i]
    ensures 0 <= frame < Capacity(c) ==>
              TrackedCount(c') == TrackedCount(c) + (if c.inflag[frame] then 0 else 1)
    ensures !(0 <= frame < Capacity(c)) ==> c' == c
  {
    if frame >= Capacity(c) || frame < 0 then c
    else
      CountTrueUpdate(c.inflag, frame, true);
      c.(inflag := c.inflag[frame := true], reflag := c.reflag[frame := true])
  }

  /** `Size`: count the tracked frames in one pass over the tracked flags. */
  method Size(c: Clock) returns (counter: nat)
    ensures counter == TrackedCount(c)
    ensures counter <= Capacity(c)
    ensures counter == 0 <==> forall i :: 0 <= i < Capacity(c) ==> !c.inflag[i]
  {
    counter := 0;
    var i := 0;
    while i < |c.inflag|
      invariant 0 <= i <= |c.inflag|
      invariant counter == CountTrue(c.inflag[..i])
    {
      assert c.inflag[..i + 1][..i] == c.inflag[..i];
      if c.inflag[i] {
        counter := counter + 1;
      }
      i := i + 1;
    }
    assert c.inflag[..i] == c.inflag;
    CountTrueZero(c.inflag);
  }
}
