/** One solver result (calculation.py): the positional layout of the paired
    records, the discrete localisation flags, the eligibility test, the swap
    rule that orders the four states as [low pair, high pair], and the
    in-plane sign annotation. Records arrive already split into numeric
    tokens. */
module Calculations {
  import opened Basics

  /** The four states of one calculation. */
  type Four = s: seq<real> | |s| == 4 witness [0.0, 0.0, 0.0, 0.0]
  type FourFlags = s: seq<int> | |s| == 4 witness [0, 0, 0, 0]

  /** Data added from the auxiliary record: eight rows of piezo data in
      localisation order, the in-plane spins, and the in-plane g-factor
      sign of the low and of the high pair. */
  datatype Annotation = Annotation(piezo: seq<seq<real>>, spinInplane: seq<real>, gInplaneSign: (real, real))

  datatype Calculation = Calculation(
    e: Vec3, b: Vec3, nStr: int, nCalc: int, nev: int,
    energy: Four, jz: Four, sz: Four, local: Four, discreteLocal: FourFlags,
    owner: Option<nat>, extra: Option<Annotation>)

  datatype ParseError = ShortRecord | NotAnInteger | WrongStateCount | ShortLocalisation | Mismatch

  datatype Result<T> = Ok(value: T) | Err(error: ParseError)

  /** int() of a numeric token: only integral values are accepted. */
  function IntToken(t: real): (r: Option<int>)
    ensures r.Some? <==> t == t.Floor as real
    ensures r.Some? ==> r.value as real == t
  {
    if t == t.Floor as real then Some(t.Floor) else None
  }

  /** The discrete localisation flag int(2·local): truncation, so a fraction
      of exactly 1.0 gives 2. */
  function Flag(x: real): (f: int)
    ensures 0.0 <= x < 0.5 ==> f == 0
    ensures 0.5 <= x < 1.0 ==> f == 1
    ensures x == 1.0 ==> f == 2
    ensures -0.5 < x < 0.0 ==> f == 0
  {
    Trunc(2.0 * x)
  }

  function Flags(local: Four): (r: FourFlags)
    ensures forall k :: 0 <= k < 4 ==> r[k] == Flag(local[k])
  {
    [Flag(local[0]), Flag(local[1]), Flag(local[2]), Flag(local[3])]
  }

  /** Calculation(l_wkr, l_local): the record layout is E = tokens 0-2,
      B = 3-5, energy = 6-9, J_z = 10-13, S_z = 14-17, localisation = tokens
      6-9 of the second record, structure and calculation numbers = the last
      two tokens of each record. The state count (len − 14) // 3 must be 4 and
      both records must name the same calculation. */
  function Parse(wkr: seq<real>, local: seq<real>): (r: Result<Calculation>)
    ensures r.Ok? <==>
      26 <= |wkr| <= 28 && |local| >= 10
      && IntToken(wkr[|wkr| - 2]).Some? && IntToken(wkr[|wkr| - 1]).Some?
      && IntToken(local[|local| - 2]) == IntToken(wkr[|wkr| - 2])
      && IntToken(local[|local| - 1]) == IntToken(wkr[|wkr| - 1])
    ensures |wkr| < 6 ==> r == Err(ShortRecord)
  {
    if |wkr| < 6 then Err(ShortRecord)
    else
      var nStr, nCalc := IntToken(wkr[|wkr| - 2]), IntToken(wkr[|wkr| - 1]);
      if nStr.None? || nCalc.None? then Err(NotAnInteger)
      else
        var nev := (|wkr| - 14) / 3;
        if nev != 4 then Err(WrongStateCount)
        else if |local| < 10 then Err(ShortLocalisation)
        else
          var loc: Four := local[6..10];
          var lStr := IntToken(local[|local| - 2]);
          if lStr.None? then Err(NotAnInteger)
          else if lStr.value != nStr.value then Err(Mismatch)
          else
            var lCalc := IntToken(local[|local| - 1]);
            if lCalc.None? then Err(NotAnInteger)
            else if lCalc.value != nCalc.value then Err(Mismatch)
            else Ok(Calculation(
              Vec3(wkr[0], wkr[1], wkr[2]), Vec3(wkr[3], wkr[4], wkr[5]), nStr.value, nCalc.value, nev,
              wkr[6..10], wkr[10..14], wkr[14..18], loc, Flags(loc), None, None))
  }

  /** A calculation as freshly read: four states, flags from its
      localisation, no owner and no annotation yet. */
  predicate FreshlyRead(c: Calculation)
  {
    c.nev == 4 && c.discreteLocal == Flags(c.local) && c.owner.None? && c.extra.None?
  }

  /** The records a calculation is written as; `pad` stands for the 6 to 8
      trailing tokens the parser does not read, `head` for the first 6
      tokens of the localisation record. */
  function EncodeWkr(c: Calculation, pad: seq<real>): seq<real>
  {
    [c.e.x, c.e.y, c.e.z, c.b.x, c.b.y, c.b.z] + c.energy + c.jz + c.sz + pad
      + [c.nStr as real, c.nCalc as real]
  }

  function EncodeLocal(c: Calculation, head: seq<real>): seq<real>
  {
    head + c.local + [c.nStr as real, c.nCalc as real]
  }

  /** Writing a freshly read calculation out and parsing it gives it back. */
  lemma ParseEncode(c: Calculation, pad: seq<real>, head: seq<real>)
    requires FreshlyRead(c) && 6 <= |pad| <= 8 && |head| == 6
    ensures Parse(EncodeWkr(c, pad), EncodeLocal(c, head)) == Ok(c)
  {
    var w := EncodeWkr(c, pad);
    var l := EncodeLocal(c, head);
    assert w[6..10] == c.energy && w[10..14] == c.jz && w[14..18] == c.sz;
    assert l[6..10] == c.local;
    assert w[|w| - 2] == c.nStr as real && w[|w| - 1] == c.nCalc as real;
    assert l[|l| - 2] == c.nStr as real && l[|l| - 1] == c.nCalc as real;
    assert (c.nStr as real).Floor == c.nStr && (c.nCalc as real).Floor == c.nCalc;
  }

  /** The fields of a parsed calculation sit where the layout puts them. */
  lemma ParsedLayout(wkr: seq<real>, local: seq<real>)
    requires 26 <= |wkr| <= 28 && |local| >= 10
    requires IntToken(wkr[|wkr| - 2]).Some? && IntToken(wkr[|wkr| - 1]).Some?
    requires IntToken(local[|local| - 2]) == IntToken(wkr[|wkr| - 2])
    requires IntToken(local[|local| - 1]) == IntToken(wkr[|wkr| - 1])
    ensures Parse(wkr, local).Ok?
    ensures var c := Parse(wkr, local).value;
      c.e == Vec3(wkr[0], wkr[1], wkr[2]) && c.b == Vec3(wkr[3], wkr[4], wkr[5])
      && c.energy == wkr[6..10] && c.jz == wkr[10..14] && c.sz == wkr[14..18]
      && c.local == local[6..10] && Anti(c) == wkr[7] - wkr[6]
      && LocalLow(c) == (local[6] + local[7]) / 2.0 && LocalUp(c) == (local[8] + local[9]) / 2.0
      && c.nStr as real == wkr[|wkr| - 2] && c.nCalc as real == wkr[|wkr| - 1]
      && c.nStr as real == local[|local| - 2] && c.nCalc as real == local[|local| - 1]
      && FreshlyRead(c)
  {
  }

  /** Energy splitting of the two lowest states: positive exactly when the
      second energy lies above the first. */
  function Anti(c: Calculation): (r: real)
    ensures r > 0.0 <==> c.energy[0] < c.energy[1]
    ensures r == 0.0 <==> c.energy[0] == c.energy[1]
  {
    c.energy[1] - c.energy[0]
  }

  /** Mean localisation of the states in raw positions 0, 1 and in 2, 3:
      each lies between the two localisations it averages. */
  function LocalLow(c: Calculation): (r: real)
    ensures c.local[0] <= c.local[1] ==> c.local[0] <= r <= c.local[1]
    ensures c.local[1] <= c.local[0] ==> c.local[1] <= r <= c.local[0]
  {
    (c.local[0] + c.local[1]) / 2.0
  }

  function LocalUp(c: Calculation): (r: real)
    ensures c.local[2] <= c.local[3] ==> c.local[2] <= r <= c.local[3]
    ensures c.local[3] <= c.local[2] ==> c.local[3] <= r <= c.local[2]
  {
    (c.local[2] + c.local[3]) / 2.0
  }

  /** Samples are ordered by E_z. */
  predicate Before(a: Calculation, b: Calculation) { a.e.z < b.e.z }

  function FlagSum(f: FourFlags): int { f[0] + f[1] + f[2] + f[3] }

  /** to_be_written: two of the four states lie in the upper dot. */
  predicate IsEligible(c: Calculation)
    ensures (forall k :: 0 <= k < 4 ==> c.discreteLocal[k] == 0 || c.discreteLocal[k] == 1) ==>
      (IsEligible(c) <==> |Group(c.discreteLocal, 1)| == 2)
  {
    UpperCount(c.discreteLocal);
    FlagSum(c.discreteLocal) == 2
  }

  /** With 0/1 flags the flag sum counts the states in the upper dot. */
  lemma UpperCount(f: FourFlags)
    ensures (forall k :: 0 <= k < 4 ==> f[k] == 0 || f[k] == 1) ==> |Group(f, 1)| == FlagSum(f)
  {
    if forall k :: 0 <= k < 4 ==> f[k] == 0 || f[k] == 1 {
      OnesCount(f, 4);
      assert PartialSum(f, 4) == FlagSum(f) by {
        assert PartialSum(f, 0) == 0;
        assert PartialSum(f, 1) == f[0];
        assert PartialSum(f, 2) == f[0] + f[1];
        assert PartialSum(f, 3) == f[0] + f[1] + f[2];
      }
    }
  }

  // ---------------------------------------------------------------------
  // Swap rule
  // ---------------------------------------------------------------------

  /** do_swap(i, n): for B_z exactly 1 by the spin of state i; otherwise by
      the sign of pair n recorded in the structure's annotated sample. */
  predicate DoSwap(c: Calculation, i: nat, n: nat, sign: Option<(real, real)>)
    requires i < 4
    ensures DoSwap(c, i, n, sign) ==> c.b.z == 1.0 || sign.Some?
  {
    if c.b.z == 1.0 then c.sz[i] < 0.0
    else sign.Some? && (if n == 0 then sign.value.0 else sign.value.1) < 0.0
  }

  /** Positions below i whose flag is n, in increasing order. */
  function GroupUpTo(f: FourFlags, n: int, i: nat): (g: seq<nat>)
    requires i <= 4
    ensures |g| <= i
    ensures forall k :: 0 <= k < |g| ==> g[k] < i
  {
    if i == 0 then [] else GroupUpTo(f, n, i - 1) + (if f[i - 1] == n then [i - 1] else [])
  }

  function Group(f: FourFlags, n: int): seq<nat>
  {
    GroupUpTo(f, n, 4)
  }

  function Gathered(vals: Four, g: seq<nat>): (r: seq<real>)
    requires forall k :: 0 <= k < |g| ==> g[k] < 4
    ensures |r| == |g| && forall k :: 0 <= k < |g| ==> r[k] == vals[g[k]]
  {
    seq(|g|, k requires 0 <= k < |g| => vals[g[k]])
  }

  /** Exchange of the neighbours at positions p and p + 1. */
  function Exchange(l: seq<real>, p: nat): (r: seq<real>)
    requires p + 1 < |l|
    ensures |r| == |l| && r[p] == l[p + 1] && r[p + 1] == l[p]
    ensures forall k :: 0 <= k < |l| && k != p && k != p + 1 ==> r[k] == l[k]
    ensures multiset(r) == multiset(l)
  {
    assert l == l[..p] + [l[p], l[p + 1]] + l[p + 2..];
    l[..p] + [l[p + 1], l[p]] + l[p + 2..]
  }

  /** swap: the flag-0 values in order, then the flag-1 values in order; the
      pair completed when the list reaches length 2 during the flag-0 pass is
      exchanged when do_swap says so for its second member, and likewise the
      pair at positions 2, 3 completed when the list reaches length 4 during
      the flag-1 pass. Values with other flags are dropped. */
  function Swapped(c: Calculation, vals: Four, sign: Option<(real, real)>): (r: seq<real>)
    ensures |r| == |Group(c.discreteLocal, 0)| + |Group(c.discreteLocal, 1)|
  {
    var g0, g1 := Group(c.discreteLocal, 0), Group(c.discreteLocal, 1);
    var l0 := Gathered(vals, g0) + Gathered(vals, g1);
    var l1 := if |g0| >= 2 && DoSwap(c, g0[1], 0, sign) then Exchange(l0, 0) else l0;
    if |g0| <= 3 && |g0| + |g1| >= 4 && DoSwap(c, g1[3 - |g0|], 1, sign) then Exchange(l1, 2) else l1
  }

  /** The list built by the flag-n pass up to position i (n is 0 or 1),
      following the source's loop: the passes before it, then the flag-n
      values below i, with the exchange of the pair ending at length 2n + 2
      once that length is reached. */
  function Stage(c: Calculation, vals: Four, sign: Option<(real, real)>, n: nat, i: nat): (r: seq<real>)
    requires n < 2 && i <= 4
    ensures |r| == |Base(c, vals, sign, n)| + |GroupUpTo(c.discreteLocal, n, i)|
    decreases 2 * n + 1
  {
    Assembled(c, vals, sign, n, Base(c, vals, sign, n), GroupUpTo(c.discreteLocal, n, i))
  }

  /** The list `base` followed by the values at positions g, with the pair
      ending at length 2n + 2 exchanged once that length is reached, when
      do_swap says so for the position that completed it. */
  function Assembled(c: Calculation, vals: Four, sign: Option<(real, real)>, n: nat, base: seq<real>, g: seq<nat>): (r: seq<real>)
    requires forall k :: 0 <= k < |g| ==> g[k] < 4
    ensures |r| == |base| + |g|
  {
    var l := base + Gathered(vals, g);
    if |base| <= 2 * n + 1 && |base| + |g| >= 2 * n + 2 && DoSwap(c, g[2 * n + 1 - |base|], n, sign)
    then Exchange(l, 2 * n) else l
  }

  function Base(c: Calculation, vals: Four, sign: Option<(real, real)>, n: nat): seq<real>
    requires n <= 2
    decreases 2 * n
  {
    if n == 0 then [] else Stage(c, vals, sign, n - 1, 4)
  }

  /** swap as the source writes it: two passes over the flags, appending and
      exchanging as the list grows. */
  method Swap(c: Calculation, vals: Four, sign: Option<(real, real)>) returns (r: seq<real>)
    ensures r == Swapped(c, vals, sign)
  {
    r := [];
    for n := 0 to 2
      invariant r == Base(c, vals, sign, n)
    {
      r := SwapPass(c, vals, sign, n, r);
    }
    StagesAreSwapped(c, vals, sign);
  }

  /** One pass of swap: append the values flagged n, exchanging the pair
      that completes length 2n + 2 when do_swap says so. */
  method SwapPass(c: Calculation, vals: Four, sign: Option<(real, real)>, n: nat, l: seq<real>) returns (r: seq<real>)
    requires n < 2 && l == Base(c, vals, sign, n)
    ensures r == Base(c, vals, sign, n + 1)
  {
    r := l;
    assert Gathered(vals, []) == [];
    for i := 0 to 4
      invariant r == Assembled(c, vals, sign, n, l, GroupUpTo(c.discreteLocal, n, i))
    {
      var g := GroupUpTo(c.discreteLocal, n, i);
      if c.discreteLocal[i] == n {
        assert GroupUpTo(c.discreteLocal, n, i + 1) == g + [i];
        AssembledStep(c, vals, sign, n, l, g, i);
        r := r + [vals[i]];
        if |r| == 2 * (n + 1) && DoSwap(c, i, n, sign) {
          r := r[..2 * n] + [r[2 * n + 1], r[2 * n]] + r[2 * n + 2..];
        }
      } else {
        assert GroupUpTo(c.discreteLocal, n, i + 1) == g;
      }
    }
    assert r == Stage(c, vals, sign, n, 4);
  }

  /** Appending one position to an assembled list. */
  lemma AssembledStep(c: Calculation, vals: Four, sign: Option<(real, real)>, n: nat, base: seq<real>, g: seq<nat>, i: nat)
    requires i < 4 && forall k :: 0 <= k < |g| ==> g[k] < 4
    ensures var r := Assembled(c, vals, sign, n, base, g) + [vals[i]];
      Assembled(c, vals, sign, n, base, g + [i])
      == if |r| == 2 * (n + 1) && DoSwap(c, i, n, sign) then r[..2 * n] + [r[2 * n + 1], r[2 * n]] + r[2 * n + 2..] else r
  {
    var g' := g + [i];
    var l := base + Gathered(vals, g);
    var l' := base + Gathered(vals, g');
    GatheredAppend(vals, g, i);
    assert l' == l + [vals[i]];
    if |base| <= 2 * n + 1 && |base| + |g| >= 2 * n + 2 {
      assert g'[2 * n + 1 - |base|] == g[2 * n + 1 - |base|];
      if DoSwap(c, g[2 * n + 1 - |base|], n, sign) {
        ExchangeAppend(l, 2 * n, [vals[i]]);
      }
    } else if |base| <= 2 * n + 1 && |base| + |g| + 1 == 2 * n + 2 {
      assert g'[2 * n + 1 - |base|] == i;
    }
  }

  /** The two passes of the loop build the list Swapped describes. */
  lemma StagesAreSwapped(c: Calculation, vals: Four, sign: Option<(real, real)>)
    ensures Base(c, vals, sign, 2) == Swapped(c, vals, sign)
  {
    var g0, g1 := Group(c.discreteLocal, 0), Group(c.discreteLocal, 1);
    var low, high := Gathered(vals, g0), Gathered(vals, g1);
    var l1 := if |g0| >= 2 && DoSwap(c, g0[1], 0, sign) then Exchange(low + high, 0) else low + high;
    SwappedFromFirstPass(c, vals, sign, l1);
    var s0 := LowPass(c, vals, sign);
    assert s0 + high == l1 by {
      if |g0| >= 2 && DoSwap(c, g0[1], 0, sign) {
        ExchangeAppend(low, 0, high);
      }
    }
    HighPass(c, vals, sign);
  }

  /** Swapped, given the list after the first exchange. */
  lemma SwappedFromFirstPass(c: Calculation, vals: Four, sign: Option<(real, real)>, l1: seq<real>)
    requires var g0, g1 := Group(c.discreteLocal, 0), Group(c.discreteLocal, 1);
      var l0 := Gathered(vals, g0) + Gathered(vals, g1);
      l1 == if |g0| >= 2 && DoSwap(c, g0[1], 0, sign) then Exchange(l0, 0) else l0
    ensures var g0, g1 := Group(c.discreteLocal, 0), Group(c.discreteLocal, 1);
      Swapped(c, vals, sign) == if |g0| <= 3 && |g0| + |g1| >= 4 && DoSwap(c, g1[3 - |g0|], 1, sign) then Exchange(l1, 2) else l1
  {
  }

  /** The flag-0 pass alone. */
  lemma LowPass(c: Calculation, vals: Four, sign: Option<(real, real)>) returns (s0: seq<real>)
    ensures s0 == Base(c, vals, sign, 1)
    ensures var g0 := Group(c.discreteLocal, 0); var low := Gathered(vals, g0);
      s0 == if |g0| >= 2 && DoSwap(c, g0[1], 0, sign) then Exchange(low, 0) else low
  {
    s0 := Stage(c, vals, sign, 0, 4);
    var low := Gathered(vals, Group(c.discreteLocal, 0));
    assert Base(c, vals, sign, 0) == [];
    assert [] + low == low;
  }

  /** The flag-1 pass after the flag-0 pass. */
  lemma HighPass(c: Calculation, vals: Four, sign: Option<(real, real)>)
    ensures var g0, g1 := Group(c.discreteLocal, 0), Group(c.discreteLocal, 1);
      var l := Base(c, vals, sign, 1) + Gathered(vals, g1);
      Base(c, vals, sign, 2) == if |g0| <= 3 && |g0| + |g1| >= 4 && DoSwap(c, g1[3 - |g0|], 1, sign) then Exchange(l, 2) else l
  {
    var s0 := LowPass(c, vals, sign);
    assert |s0| == |Group(c.discreteLocal, 0)|;
  }

  lemma ExchangeAppend(l: seq<real>, p: nat, tail: seq<real>)
    requires p + 1 < |l|
    ensures Exchange(l + tail, p) == Exchange(l, p) + tail
  {
    assert (l + tail)[..p] == l[..p];
    assert (l + tail)[p + 2..] == l[p + 2..] + tail;
  }

  lemma GatheredAppend(vals: Four, g: seq<nat>, x: nat)
    requires x < 4 && forall k :: 0 <= k < |g| ==> g[k] < 4
    ensures Gathered(vals, g + [x]) == Gathered(vals, g) + [vals[x]]
  {
  }

  // ---------------------------------------------------------------------
  // What swap keeps
  // ---------------------------------------------------------------------

  /** Gathering the flag-0 and the flag-1 positions below i: together they
      hold the values below i whose flag is 0 or 1. */
  lemma {:induction false} GatheredGroups(f: FourFlags, vals: Four, i: nat)
    requires i <= 4
    ensures multiset(Gathered(vals, GroupUpTo(f, 0, i))) + multiset(Gathered(vals, GroupUpTo(f, 1, i)))
      == multiset(Kept(f, vals, i))
  {
    if i > 0 {
      GatheredGroups(f, vals, i - 1);
      var g0, g1 := GroupUpTo(f, 0, i - 1), GroupUpTo(f, 1, i - 1);
      if f[i - 1] == 0 {
        assert GroupUpTo(f, 0, i) == g0 + [i - 1];
        GatheredAppend(vals, g0, i - 1);
        assert GroupUpTo(f, 1, i) == g1;
      } else if f[i - 1] == 1 {
        assert GroupUpTo(f, 1, i) == g1 + [i - 1];
        GatheredAppend(vals, g1, i - 1);
        assert GroupUpTo(f, 0, i) == g0;
      } else {
        assert GroupUpTo(f, 0, i) == g0 && GroupUpTo(f, 1, i) == g1;
      }
    }
  }

  /** The values below i whose flag is 0 or 1, in order. */
  function Kept(f: FourFlags, vals: Four, i: nat): seq<real>
    requires i <= 4
  {
    if i == 0 then [] else Kept(f, vals, i - 1) + (if f[i - 1] == 0 || f[i - 1] == 1 then [vals[i - 1]] else [])
  }

  lemma {:induction false} KeptAll(f: FourFlags, vals: Four, i: nat)
    requires i <= 4 && forall k :: 0 <= k < 4 ==> f[k] == 0 || f[k] == 1
    ensures Kept(f, vals, i) == vals[..i]
  {
    if i > 0 {
      KeptAll(f, vals, i - 1);
      assert vals[..i] == vals[..i - 1] + [vals[i - 1]];
    }
  }

  /** swap keeps exactly the values flagged 0 or 1, whatever it exchanges. */
  lemma SwapKeepsFlagged(c: Calculation, vals: Four, sign: Option<(real, real)>)
    ensures multiset(Swapped(c, vals, sign)) == multiset(Kept(c.discreteLocal, vals, 4))
  {
    GatheredGroups(c.discreteLocal, vals, 4);
  }

  /** With every flag 0 or 1 (as for two low and two high states), swap
      returns a permutation of its input. */
  lemma SwapPermutes(c: Calculation, vals: Four, sign: Option<(real, real)>)
    requires forall k :: 0 <= k < 4 ==> c.discreteLocal[k] == 0 || c.discreteLocal[k] == 1
    ensures multiset(Swapped(c, vals, sign)) == multiset(vals)
  {
    SwapKeepsFlagged(c, vals, sign);
    KeptAll(c.discreteLocal, vals, 4);
    assert vals[..4] == vals;
  }

  /** A value whose flag is neither 0 nor 1 (the flag 2 of a localisation of
      exactly 1.0) is dropped: the output has fewer than four values. */
  lemma SwapDropsOtherFlags(c: Calculation, vals: Four, sign: Option<(real, real)>, k: nat)
    requires k < 4 && c.discreteLocal[k] != 0 && c.discreteLocal[k] != 1
    ensures |Swapped(c, vals, sign)| < 4
  {
    CountGroups(c.discreteLocal, 4);
    assert c.discreteLocal[k] !in {0, 1};
    OtherFlagShrinks(c.discreteLocal, 4, k);
  }

  lemma {:induction false} CountGroups(f: FourFlags, i: nat)
    requires i <= 4
    ensures |GroupUpTo(f, 0, i)| + |GroupUpTo(f, 1, i)| <= i
  {
    if i > 0 {
      CountGroups(f, i - 1);
    }
  }

  lemma {:induction false} OtherFlagShrinks(f: FourFlags, i: nat, k: nat)
    requires k < i <= 4 && f[k] != 0 && f[k] != 1
    ensures |GroupUpTo(f, 0, i)| + |GroupUpTo(f, 1, i)| < i
  {
    CountGroups(f, i - 1);
    if k < i - 1 {
      OtherFlagShrinks(f, i - 1, k);
    }
  }

  /** An eligible calculation whose flags are all 0 or 1 has two states in
      each dot. */
  lemma EligibleSplitsTwoTwo(c: Calculation)
    requires IsEligible(c) && forall k :: 0 <= k < 4 ==> c.discreteLocal[k] == 0 || c.discreteLocal[k] == 1
    ensures |Group(c.discreteLocal, 0)| == 2 && |Group(c.discreteLocal, 1)| == 2
  {
    var f := c.discreteLocal;
    OnesCount(f, 4);
    assert PartialSum(f, 4) == FlagSum(f) by {
      assert PartialSum(f, 0) == 0;
      assert PartialSum(f, 1) == f[0];
      assert PartialSum(f, 2) == f[0] + f[1];
      assert PartialSum(f, 3) == f[0] + f[1] + f[2];
    }
    GroupsCover(f, 4);
  }

  /** Sum of the first i flags. */
  function PartialSum(f: FourFlags, i: nat): int
    requires i <= 4
  {
    if i == 0 then 0 else PartialSum(f, i - 1) + f[i - 1]
  }

  lemma {:induction false} OnesCount(f: FourFlags, i: nat)
    requires i <= 4 && forall k :: 0 <= k < 4 ==> f[k] == 0 || f[k] == 1
    ensures |GroupUpTo(f, 1, i)| == PartialSum(f, i)
  {
    if i > 0 {
      OnesCount(f, i - 1);
    }
  }

  lemma {:induction false} GroupsCover(f: FourFlags, i: nat)
    requires i <= 4 && forall k :: 0 <= k < 4 ==> f[k] == 0 || f[k] == 1
    ensures |GroupUpTo(f, 0, i)| + |GroupUpTo(f, 1, i)| == i
  {
    if i > 0 {
      GroupsCover(f, i - 1);
    }
  }

  /** Out of plane do_swap reads only the spin of state i, never the
      annotation; in plane it reads only the annotated sign of pair n,
      whichever state is asked about, and never swaps without one. */
  lemma DoSwapReads(c: Calculation, i: nat, j: nat, n: nat, sign: Option<(real, real)>)
    requires i < 4 && j < 4
    ensures c.b.z == 1.0 ==> (DoSwap(c, i, n, sign) <==> c.sz[i] < 0.0) && (DoSwap(c, i, n, sign) <==> DoSwap(c, i, n, None))
    ensures c.b.z != 1.0 ==> (DoSwap(c, i, n, sign) <==> DoSwap(c, j, n, sign)) && !DoSwap(c, i, n, None)
  {
  }

  /** With both pairs left alone, swap lists the low-dot values, then the
      high-dot values, each in their original order. */
  lemma SwapWithoutExchange(c: Calculation, vals: Four)
    requires c.b.z != 1.0
    ensures Swapped(c, vals, None) == Gathered(vals, Group(c.discreteLocal, 0)) + Gathered(vals, Group(c.discreteLocal, 1))
  {
  }

  // ---------------------------------------------------------------------
  // Auxiliary record
  // ---------------------------------------------------------------------

  /** The group a flag files a spin under: Python list indexing on the two
      buckets, so −2 and −1 count from the end. */
  function Bucket(flag: int): Option<nat>
  {
    PyIndex(flag, 2)
  }

  /** The spins filed under group g, in order. */
  function SpinsOf(spins: Four, f: FourFlags, g: nat): (r: seq<real>)
  {
    Filed(spins, f, g, 4)
  }

  /** The positions below i whose flag is filed under group g, in increasing
      order: every such position, and no other. */
  function Filing(f: FourFlags, g: nat, i: nat): (ks: seq<nat>)
    requires i <= 4
    ensures forall m :: 0 <= m < |ks| ==> ks[m] < i && Bucket(f[ks[m]]) == Some(g)
    ensures forall m, n :: 0 <= m < n < |ks| ==> ks[m] < ks[n]
    ensures forall k :: 0 <= k < i && Bucket(f[k]) == Some(g) ==> k in ks
  {
    if i == 0 then [] else Filing(f, g, i - 1) + (if Bucket(f[i - 1]) == Some(g) then [i - 1] else [])
  }

  /** The loop's append order: the spins below i filed under g. */
  function Filed(spins: Four, f: FourFlags, g: nat, i: nat): (r: seq<real>)
    requires i <= 4
    ensures |r| <= i
  {
    if i == 0 then [] else Filed(spins, f, g, i - 1) + (if Bucket(f[i - 1]) == Some(g) then [spins[i - 1]] else [])
  }

  /** The spins filed under g are the spins at the positions Filing lists. */
  lemma {:induction false} FiledAtFiling(spins: Four, f: FourFlags, g: nat, i: nat)
    requires i <= 4
    ensures Filed(spins, f, g, i) == Gathered(spins, Filing(f, g, i))
  {
    if i > 0 {
      FiledAtFiling(spins, f, g, i - 1);
      if Bucket(f[i - 1]) == Some(g) {
        GatheredAppend(spins, Filing(f, g, i - 1), i - 1);
      }
    }
  }

  /** +1 when the first spin of a group is below the second, else −1. */
  function SignOf(spins: seq<real>): (s: real)
    requires |spins| >= 2
    ensures s == 1.0 || s == -1.0
    ensures s == 1.0 <==> spins[0] < spins[1]
  {
    if spins[0] < spins[1] then 1.0 else -1.0
  }

  function PiezoRow(tokens: seq<real>, j: nat): Four
    requires j < 8 && |tokens| >= 42
  {
    tokens[6 + 4 * j..10 + 4 * j]
  }

  /** add_additional: piezo rows from tokens 6+4j to 9+4j, each put in
      localisation order by swap; in-plane spins from tokens 38-41; and the
      sign of each pair. None where the source raises IndexError: a short
      record, a flag outside [−2, 1], or a group without two spins. `sign`
      is the annotation of the structure's previously annotated sample. */
  function Annotated(c: Calculation, tokens: seq<real>, sign: Option<(real, real)>): (r: Option<Calculation>)
    ensures r.Some? <==> (|tokens| >= 42 && (forall k :: 0 <= k < 4 ==> Bucket(c.discreteLocal[k]).Some?)
      && |SpinsOf(tokens[38..42], c.discreteLocal, 0)| >= 2 && |SpinsOf(tokens[38..42], c.discreteLocal, 1)| >= 2)
    ensures r.Some? ==> r.value == c.(extra := r.value.extra) && r.value.extra.Some?
    ensures r.Some? ==> var a := r.value.extra.value;
      |a.piezo| == 8 && (forall j :: 0 <= j < 8 ==> a.piezo[j] == Swapped(c, PiezoRow(tokens, j), sign))
      && a.spinInplane == tokens[38..42]
      && a.gInplaneSign == (SignOf(SpinsOf(tokens[38..42], c.discreteLocal, 0)), SignOf(SpinsOf(tokens[38..42], c.discreteLocal, 1)))
  {
    if |tokens| < 42 then None
    else
      var spins: Four := tokens[38..42];
      if !(forall k :: 0 <= k < 4 ==> Bucket(c.discreteLocal[k]).Some?) then None
      else
        var low, high := SpinsOf(spins, c.discreteLocal, 0), SpinsOf(spins, c.discreteLocal, 1);
        if |low| < 2 || |high| < 2 then None
        else
          var piezo := seq(8, j requires 0 <= j < 8 => Swapped(c, PiezoRow(tokens, j), sign));
          Some(c.(extra := Some(Annotation(piezo, spins, (SignOf(low), SignOf(high))))))
  }

  /** add_additional succeeds exactly when the record has 42 tokens or more
      and the flags put two states in each group. */
  lemma AnnotatedSucceeds(c: Calculation, tokens: seq<real>, sign: Option<(real, real)>)
    ensures Annotated(c, tokens, sign).Some? <==> (|tokens| >= 42
      && (forall k :: 0 <= k < 4 ==> -2 <= c.discreteLocal[k] <= 1)
      && |SpinsOf(tokens[38..42], c.discreteLocal, 0)| == 2 && |SpinsOf(tokens[38..42], c.discreteLocal, 1)| == 2)
  {
    if |tokens| >= 42 {
      var spins: Four := tokens[38..42];
      FiledTotal(spins, c.discreteLocal, 4);
    }
  }

  /** The sign of group g is +1 exactly when the spin at the first position
      filed under g is below the spin at the second. */
  lemma AnnotatedSignRule(c: Calculation, tokens: seq<real>, sign: Option<(real, real)>, g: nat)
    requires g < 2 && Annotated(c, tokens, sign).Some?
    ensures var ks := Filing(c.discreteLocal, g, 4);
      var s := Annotated(c, tokens, sign).value.extra.value.gInplaneSign;
      |ks| >= 2 && ((if g == 0 then s.0 else s.1) == 1.0 <==> tokens[38 + ks[0]] < tokens[38 + ks[1]])
  {
    var spins: Four := tokens[38..42];
    var group := SpinsOf(spins, c.discreteLocal, g);
    assert |group| >= 2;
    FirstTwoFiled(spins, c.discreteLocal, g);
  }

  /** The first two spins of a group come from its first two positions. */
  lemma FirstTwoFiled(spins: Four, f: FourFlags, g: nat)
    requires |SpinsOf(spins, f, g)| >= 2
    ensures var ks := Filing(f, g, 4); var group := SpinsOf(spins, f, g);
      |ks| >= 2 && group[0] == spins[ks[0]] && group[1] == spins[ks[1]]
  {
    FiledAtFiling(spins, f, g, 4);
  }

  lemma {:induction false} FiledTotal(spins: Four, f: FourFlags, i: nat)
    requires i <= 4
    ensures |Filed(spins, f, 0, i)| + |Filed(spins, f, 1, i)| <= i
  {
    if i > 0 {
      FiledTotal(spins, f, i - 1);
    }
  }

  /** add_additional as the source writes it: a loop over the eight piezo
      rows, a loop filing the spins, and a loop over the two groups. */
  method AddAdditional(c: Calculation, tokens: seq<real>, sign: Option<(real, real)>)
    returns (r: Option<Calculation>)
    ensures r == Annotated(c, tokens, sign)
  {
    if |tokens| < 42 {
      return None;
    }
    var piezo: seq<seq<real>> := [];
    for j := 0 to 8
      invariant |piezo| == j
      invariant forall k :: 0 <= k < j ==> piezo[k] == Swapped(c, PiezoRow(tokens, k), sign)
    {
      var row := Swap(c, PiezoRow(tokens, j), sign);
      piezo := piezo + [row];
    }
    var spins: Four := tokens[38..42];
    var low, high := [], [];
    for k := 0 to 4
      invariant forall m :: 0 <= m < k ==> Bucket(c.discreteLocal[m]).Some?
      invariant low == Filed(spins, c.discreteLocal, 0, k) && high == Filed(spins, c.discreteLocal, 1, k)
    {
      var bucket := Bucket(c.discreteLocal[k]);
      if bucket.None? {
        return None;
      }
      if bucket.value == 0 {
        low := low + [spins[k]];
      } else {
        high := high + [spins[k]];
      }
    }
    var signs: seq<real> := [];
    for g := 0 to 2
      invariant |signs| == g
      invariant g > 0 ==> |low| >= 2 && signs[0] == SignOf(low)
      invariant g > 1 ==> |high| >= 2 && signs[1] == SignOf(high)
    {
      var group := if g == 0 then low else high;
      if |group| < 2 {
        return None;
      }
      signs := signs + [if group[0] < group[1] then 1.0 else -1.0];
    }
    assert piezo == seq(8, j requires 0 <= j < 8 => Swapped(c, PiezoRow(tokens, j), sign));
    r := Some(c.(extra := Some(Annotation(piezo, spins, (signs[0], signs[1])))));
  }
}
