/**
 Sharing an amount fairly among columns with individual limits.

 `Fair` says what a fair share is without mentioning rounds: nobody is more than
 one unit ahead of a column that could still take more, and a column to the
 right of such a column is not ahead of it at all. The round-robin loops of
 `widenTruncated` and `distribute` are proved to give fair shares, and a fair
 share of a given total is proved to be unique.
 */
module WaterFill {
  import opened Sums

  datatype Cap = Limit(n: nat) | Unlimited

  /** What a column with limit `c` holds when the water stands at `level`. */
  function Take(c: Cap, level: nat): nat
  {
    match c
    case Limit(n) => if level < n then level else n
    case Unlimited => level
  }

  predicate Short(c: Cap, x: int)
  {
    match c
    case Limit(n) => x < n
    case Unlimited => true
  }

  ghost predicate Within(caps: seq<Cap>, share: seq<int>)
  {
    && |share| == |caps|
    && forall i :: 0 <= i < |caps| ==> 0 <= share[i] && (caps[i].Limit? ==> share[i] <= caps[i].n)
  }

  ghost predicate Fair(caps: seq<Cap>, share: seq<int>)
  {
    && Within(caps, share)
    && forall p, q :: 0 <= p < |caps| && 0 <= q < |caps| && Short(caps[p], share[p]) ==>
         share[q] <= share[p] + (if q < p then 1 else 0)
  }

  ghost predicate AllFull(caps: seq<Cap>, share: seq<int>)
    requires |share| == |caps|
  {
    forall i :: 0 <= i < |caps| ==> !Short(caps[i], share[i])
  }

  /** The state of a round robin after `level` full rounds, with the columns left
      of `cut` already served in the next one. */
  ghost predicate AtLevel(caps: seq<Cap>, share: seq<int>, level: nat, cut: nat)
  {
    && |share| == |caps|
    && cut <= |caps|
    && forall i :: 0 <= i < |caps| ==> share[i] == Take(caps[i], if i < cut then level + 1 else level)
  }

  lemma LevelIsFair(caps: seq<Cap>, share: seq<int>, level: nat, cut: nat)
    requires AtLevel(caps, share, level, cut)
    ensures Fair(caps, share)
  {
  }

  lemma {:induction false} UpperBound(share: seq<int>) returns (m: nat)
    ensures forall i :: 0 <= i < |share| ==> share[i] <= m
  {
    m := 0;
    for k := 0 to |share|
      invariant forall i :: 0 <= i < k ==> share[i] <= m
    {
      if share[k] > m {
        m := share[k];
      }
    }
  }

  /** Every fair share is a water level. */
  lemma {:induction false} FairHasLevel(caps: seq<Cap>, share: seq<int>) returns (level: nat, cut: nat)
    requires Fair(caps, share)
    ensures AtLevel(caps, share, level, cut)
  {
    if AllFull(caps, share) {
      level := UpperBound(share);
      cut := 0;
    } else {
      // the leftmost of the emptiest columns that could still take more
      cut :| 0 <= cut < |caps| && Short(caps[cut], share[cut]);
      var k := 0;
      while k < |caps|
        invariant 0 <= k <= |caps| && 0 <= cut < |caps| && Short(caps[cut], share[cut])
        invariant forall i :: 0 <= i < k && Short(caps[i], share[i]) ==>
                    share[cut] < share[i] || (share[cut] == share[i] && cut <= i)
      {
        if Short(caps[k], share[k]) && (share[k] < share[cut] || (share[k] == share[cut] && k < cut)) {
          cut := k;
        }
        k := k + 1;
      }
      level := share[cut];
    }
  }

  /** A fair share of a given total is unique. */
  lemma {:induction false} FairUnique(caps: seq<Cap>, a: seq<int>, b: seq<int>)
    requires Fair(caps, a) && Fair(caps, b) && Sum(a) == Sum(b)
    ensures a == b
  {
    var la, ca := FairHasLevel(caps, a);
    var lb, cb := FairHasLevel(caps, b);
    if la < lb || (la == lb && ca <= cb) {
      SumMonotone(a, b);
    } else {
      SumMonotone(b, a);
    }
  }

  // ----- a fair split of an amount -----

  function Changes(was: seq<int>, now: seq<int>, grow: bool): (c: seq<int>)
    requires |was| == |now|
    ensures |c| == |was|
    ensures forall i :: 0 <= i < |was| ==> now[i] == if grow then was[i] + c[i] else was[i] - c[i]
  {
    seq(|was|, i requires 0 <= i < |was| => if grow then now[i] - was[i] else was[i] - now[i])
  }

  lemma {:induction false} SumChanges(was: seq<int>, now: seq<int>, grow: bool)
    requires |was| == |now|
    ensures Sum(Changes(was, now, grow)) == if grow then Sum(now) - Sum(was) else Sum(was) - Sum(now)
  {
    if was != [] {
      var n := |was| - 1;
      assert Changes(was, now, grow)[..n] == Changes(was[..n], now[..n], grow);
      SumChanges(was[..n], now[..n], grow);
    }
  }

  /** `now` comes from `was` by sharing out `amount` fairly: all of it, or as much
      of it as the limits allow. */
  ghost predicate FairSplit(was: seq<int>, now: seq<int>, caps: seq<Cap>, amount: int, grow: bool)
  {
    && |now| == |was| == |caps|
    && Fair(caps, Changes(was, now, grow))
    && Sum(Changes(was, now, grow)) <= Max0(amount)
    && (Sum(Changes(was, now, grow)) < amount ==> AllFull(caps, Changes(was, now, grow)))
  }

  lemma {:induction false} SumNonNegative(c: seq<int>)
    requires forall i :: 0 <= i < |c| ==> c[i] >= 0
    ensures Sum(c) >= 0
    ensures Sum(c) == 0 ==> forall i :: 0 <= i < |c| ==> c[i] == 0
  {
    if c != [] {
      SumNonNegative(c[..|c| - 1]);
      assert forall i :: 0 <= i < |c| - 1 ==> c[i] == c[..|c| - 1][i];
    }
  }

  /** The split is determined by the limits and the amount. */
  lemma {:induction false} FairSplitUnique(was: seq<int>, a: seq<int>, b: seq<int>, caps: seq<Cap>, amount: int, grow: bool)
    requires FairSplit(was, a, caps, amount, grow) && FairSplit(was, b, caps, amount, grow)
    ensures a == b
  {
    var ca, cb := Changes(was, a, grow), Changes(was, b, grow);
    SumNonNegative(ca);
    SumNonNegative(cb);
    if Sum(ca) != Sum(cb) {
      if Sum(ca) < Sum(cb) {
        SumMonotone(cb, ca);
      } else {
        SumMonotone(ca, cb);
      }
    }
    FairUnique(caps, ca, cb);
  }

  /** One round of a round robin, from column `i` on: every column that can still
      take more takes one unit, as long as any is left. */
  function Round(caps: seq<Cap>, share: seq<int>, i: nat, left: nat): (r: (seq<int>, nat))
    requires |share| == |caps| && i <= |caps|
    ensures |r.0| == |caps| && r.1 <= left
    decreases |caps| - i
  {
    if i == |caps| || left == 0 then (share, left)
    else if Short(caps[i], share[i]) then Round(caps, share[i := share[i] + 1], i + 1, left - 1)
    else Round(caps, share, i + 1, left)
  }

  /** A round keeps the water level; one that changes nothing found everyone full. */
  lemma {:induction false} RoundLevel(caps: seq<Cap>, share: seq<int>, level: nat, i: nat, left: nat) returns (cut: nat)
    requires AtLevel(caps, share, level, i)
    ensures var (end, rest) := Round(caps, share, i, left);
            && AtLevel(caps, end, level, cut)
            && (rest > 0 ==> cut == |caps|)
            && (rest == left > 0 ==> end == share && forall q :: i <= q < |caps| ==> !Short(caps[q], share[q]))
    decreases |caps| - i
  {
    if i == |caps| || left == 0 {
      cut := i;
    } else if Short(caps[i], share[i]) {
      cut := RoundLevel(caps, share[i := share[i] + 1], level, i + 1, left - 1);
    } else {
      cut := RoundLevel(caps, share, level, i + 1, left);
    }
  }

  /** A round hands out exactly what it takes from the amount. */
  lemma {:induction false} RoundSum(caps: seq<Cap>, share: seq<int>, i: nat, left: nat)
    requires |share| == |caps| && i <= |caps|
    ensures var (end, rest) := Round(caps, share, i, left); Sum(end) + rest == Sum(share) + left
    decreases |caps| - i
  {
    if i == |caps| || left == 0 {
    } else if Short(caps[i], share[i]) {
      SumUpdate(share, i, share[i] + 1);
      RoundSum(caps, share[i := share[i] + 1], i + 1, left - 1);
    } else {
      RoundSum(caps, share, i + 1, left);
    }
  }

  /** A round passes full columns without effect. */
  lemma {:induction false} RoundSkips(caps: seq<Cap>, share: seq<int>, i: nat, j: nat, left: nat)
    requires |share| == |caps| && i <= j <= |caps|
    requires forall k :: i <= k < j ==> !Short(caps[k], share[k])
    ensures Round(caps, share, i, left) == Round(caps, share, j, left)
    decreases j - i
  {
    if i < j {
      RoundSkips(caps, share, i + 1, j, left);
    }
  }

  /** A round robin in progress: `spent` units handed out, the water at `level`,
      the columns left of `cut` already served in the next round. */
  ghost predicate Served(caps: seq<Cap>, share: seq<int>, level: nat, cut: nat, spent: int)
  {
    AtLevel(caps, share, level, cut) && Sum(share) == spent
  }

  function Zeros(n: nat): (z: seq<int>)
    ensures |z| == n && forall i :: 0 <= i < n ==> z[i] == 0
  {
    seq(n, _ => 0)
  }

  lemma {:induction false} ServedNothing(caps: seq<Cap>)
    ensures Served(caps, Zeros(|caps|), 0, 0, 0)
  {
    SumZeros(|caps|);
  }

  lemma {:induction false} SumZeros(n: nat)
    ensures Sum(Zeros(n)) == 0
  {
    if n > 0 {
      assert Zeros(n)[..n - 1] == Zeros(n - 1);
      SumZeros(n - 1);
    }
  }

  /** One whole round: on to the next level, the last unit spent, or everyone full. */
  lemma {:induction false} RoundOutcome(caps: seq<Cap>, share: seq<int>, level: nat, left: nat, spent: int)
    returns (level': nat, cut: nat)
    requires Served(caps, share, level, 0, spent) && left > 0
    ensures var (end, rest) := Round(caps, share, 0, left);
            && Served(caps, end, level', cut, spent + left - rest)
            && (rest > 0 ==> cut == 0)
            && (rest == left ==> AllFull(caps, end))
  {
    level' := level;
    cut := RoundLevel(caps, share, level, 0, left);
    RoundSum(caps, share, 0, left);
    if Round(caps, share, 0, left).1 > 0 {
      level', cut := level + 1, 0;
    }
  }

  /** The same for a round robin that has `left` of `amount` to go. */
  lemma RoundServed(caps: seq<Cap>, share: seq<int>, level: nat, left: nat, amount: nat) returns (level': nat, cut: nat)
    requires Served(caps, share, level, 0, amount - left) && left > 0
    ensures Within(caps, share)
    ensures var (end, rest) := Round(caps, share, 0, left);
            && Served(caps, end, level', cut, amount - rest)
            && (rest > 0 ==> cut == 0)
            && (rest == left ==> AllFull(caps, end))
  {
    LevelIsFair(caps, share, level, 0);
    level', cut := RoundOutcome(caps, share, level, left, amount - left);
  }

  /** The widths after everyone's share has been added or taken. */
  ghost predicate Moved(was: seq<int>, now: seq<int>, share: seq<int>, grow: bool)
  {
    && |was| == |now| == |share|
    && forall i :: 0 <= i < |was| ==> now[i] == if grow then was[i] + share[i] else was[i] - share[i]
  }

  /** A round robin may stop when the amount is spent, or when everyone is full. */
  lemma {:induction false} ServedSplits(was: seq<int>, now: seq<int>, caps: seq<Cap>, share: seq<int>, grow: bool,
                                        level: nat, cut: nat, spent: int, amount: int)
    requires Served(caps, share, level, cut, spent) && Moved(was, now, share, grow)
    requires 0 <= spent <= Max0(amount)
    requires spent >= amount || AllFull(caps, share)
    ensures FairSplit(was, now, caps, amount, grow)
    ensures Sum(now) == if grow then Sum(was) + spent else Sum(was) - spent
  {
    LevelIsFair(caps, share, level, cut);
    assert Changes(was, now, grow) == share;
    SumChanges(was, now, grow);
  }

  function Max0(x: int): int { if x > 0 then x else 0 }
}
