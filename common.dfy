/** Helpers shared by the whole sampler (common.py): the golden-ratio split
    factor, tolerance equality, field-direction labels, the sorted
    near-duplicate removal and the generators of field lists. */
module Common {
  import opened Basics

  /** np.sqrt(5.0) and 2.0**0.5 as doubles; proofs only use their bounds. */
  const Sqrt5: real := 2.23606797749979
  const Sqrt2: real := 1.4142135623730951

  /** Golden ratio minus one, about 0.618. */
  const Golden: real := (Sqrt5 - 1.0) / 2.0

  lemma ConstantBounds()
    ensures 2.236 < Sqrt5 < 2.2361 && 1.414 < Sqrt2 < 1.4143
    ensures 0.618 < Golden < 0.6181
  {
  }

  /** Split factor used for golden-ratio biased sampling: Golden when the
      error is exact, otherwise growing from Golden towards 1 with error². */
  function Phi(error: real): (r: real)
    ensures error * error == 1.0 ==> r == Golden
    ensures 0.0 <= error * error < 1.0 ==> Golden <= r < 1.0
    ensures error * error > 1.0 ==> r > 1.0
  {
    var e2 := error * error;
    if e2 == 1.0 then Golden else e2 + Golden * (1.0 - e2)
  }

  /** Phi strictly grows with error² below 1, and its value at error² == 1
      is Golden rather than the formula's limit 1. */
  lemma PhiMonotone(e: real, f: real)
    requires 0.0 <= e * e < f * f < 1.0
    ensures Phi(e) < Phi(f)
    ensures Phi(1.0) == Golden < 1.0
  {
    var d := f * f - e * e;
    assert Phi(f) - Phi(e) == d * (1.0 - Golden);
  }

  const CloseEps: real := 0.00000001

  /** Tolerance equality |x - y| < 1e-8. */
  predicate Close(x: real, y: real)
  {
    Abs(x - y) < CloseEps
  }

  lemma CloseSymmetric(x: real, y: real)
    ensures Close(x, y) <==> Close(y, x)
    ensures Close(x, x)
    ensures Close(x, y) ==> -CloseEps < x - y < CloseEps
  {
  }

  /** Crystal-direction label of a magnetic field, first matching rule wins. */
  function BDirection(b: Vec3): (r: string)
    ensures r in {"[001]", "[100]", "[010]", "[110]", "[-110]", ""}
    ensures r == "" <==> b.x == 0.0 && b.y != 0.0 && b.y != 1.0
    ensures r == "[001]" <==> b.x == 0.0 && b.y == 0.0
  {
    if b.x == 0.0 && b.y == 0.0 then "[001]"
    else if b.x == 1.0 then "[100]"
    else if b.y == 1.0 then "[010]"
    else if b.x > 0.0 then "[110]"
    else if b.x < 0.0 then "[-110]"
    else ""
  }

  /** "Sign" of a field for plotting along an arbitrary direction. */
  function FieldSign(b: Vec3): (r: int)
    ensures r == 1 || r == -1
    ensures r == -1 <==> b.y <= 0.0 && b.x != 1.0
  {
    if b.y > 0.0 then 1 else if b.x == 1.0 then 1 else -1
  }

  // ---------------------------------------------------------------------
  // sort_and_remove_dupl (the definition that overrides the first one)
  // ---------------------------------------------------------------------

  ghost predicate StrictlyAscending(s: seq<real>)
  {
    forall i, j :: 0 <= i < j < |s| ==> s[i] < s[j]
  }

  /** Insert x into a strictly ascending list unless it is already there. */
  function InsertUnique(x: real, s: seq<real>): (r: seq<real>)
    requires StrictlyAscending(s)
    ensures StrictlyAscending(r)
    ensures forall y :: y in r <==> y == x || y in s
  {
    if s == [] then [x]
    else if x < s[0] then [x] + s
    else if x == s[0] then s
    else
      var t := InsertUnique(x, s[1..]);
      AscendingHead(s);
      assert forall y :: y in t ==> s[0] < y;
      AscendingCons(s[0], t);
      [s[0]] + t
  }

  lemma AscendingHead(s: seq<real>)
    requires StrictlyAscending(s) && s != []
    ensures forall y :: y in s[1..] ==> s[0] < y
  {
    forall y | y in s[1..] ensures s[0] < y {
      var k :| 0 <= k < |s[1..]| && s[1..][k] == y;
      assert s[k + 1] == y;
    }
  }

  lemma AscendingCons(x: real, t: seq<real>)
    requires StrictlyAscending(t) && forall y :: y in t ==> x < y
    ensures StrictlyAscending([x] + t)
  {
    var r := [x] + t;
    forall i, j | 0 <= i < j < |r| ensures r[i] < r[j] {
      if i == 0 {
        assert r[j] == t[j - 1] && t[j - 1] in t;
      } else {
        assert r[i] == t[i - 1] && r[j] == t[j - 1];
      }
    }
  }

  /** sorted(list(set(xs))). */
  function SortedUnique(xs: seq<real>): (r: seq<real>)
    ensures StrictlyAscending(r)
    ensures forall y :: y in r <==> y in xs
  {
    if xs == [] then [] else InsertUnique(xs[0], SortedUnique(xs[1..]))
  }

  /** Keep `last`, drop the following values close to the last kept one. */
  function ThinFrom(last: real, rest: seq<real>): (r: seq<real>)
    ensures |r| >= 1 && r[0] == last
    decreases |rest|
  {
    if rest == [] then [last]
    else if Close(rest[0], last) then ThinFrom(last, rest[1..])
    else [last] + ThinFrom(rest[0], rest[1..])
  }

  function Thin(xs: seq<real>): seq<real>
  {
    if xs == [] then [] else ThinFrom(xs[0], xs[1..])
  }

  /** The value computed by sort_and_remove_dupl. */
  function Dedupl(xs: seq<real>): seq<real>
  {
    Thin(SortedUnique(xs))
  }

  /** sort_and_remove_dupl: sort the distinct values, then pop every value
      close to its kept predecessor. */
  method SortAndRemoveDupl(xs: seq<real>) returns (r: seq<real>)
    ensures r == Dedupl(xs)
  {
    r := SortedUnique(xs);
    if r == [] {
      return;
    }
    ghost var sorted := r;
    var i := 1;
    while i < |r|
      invariant 1 <= i <= |r|
      invariant Thin(sorted) == r[..i - 1] + ThinFrom(r[i - 1], r[i..])
      decreases |r| - i
    {
      if Close(r[i], r[i - 1]) {
        ghost var before := r;
        r := r[..i] + r[i + 1..];
        assert r[..i - 1] == before[..i - 1] && r[i - 1] == before[i - 1];
        assert r[i..] == before[i + 1..] == before[i..][1..];
      } else {
        assert r[i..][1..] == r[i + 1..];
        assert r[..i] == r[..i - 1] + [r[i - 1]];
        i := i + 1;
      }
    }
    assert r[i..] == [];
    assert r[..i - 1] + [r[i - 1]] == r;
  }

  ghost predicate Separated(s: seq<real>)
  {
    forall k :: 0 <= k < |s| - 1 ==> !Close(s[k], s[k + 1])
  }

  /** ThinFrom keeps its first value and otherwise only values of rest. */
  lemma {:induction false} ThinFromSubset(last: real, rest: seq<real>)
    ensures |ThinFrom(last, rest)| >= 1 && ThinFrom(last, rest)[0] == last
    ensures forall y :: y in ThinFrom(last, rest) ==> y == last || y in rest
    decreases |rest|
  {
    if rest != [] {
      var tail := rest[1..];
      assert rest == [rest[0]] + tail;
      if Close(rest[0], last) {
        ThinFromSubset(last, tail);
      } else {
        ThinFromSubset(rest[0], tail);
      }
    }
  }

  lemma {:induction false} ThinFromAscending(last: real, rest: seq<real>)
    requires StrictlyAscending([last] + rest)
    ensures StrictlyAscending(ThinFrom(last, rest))
    decreases |rest|
  {
    var s := [last] + rest;
    if rest != [] {
      var tail := rest[1..];
      assert rest == [rest[0]] + tail;
      if Close(rest[0], last) {
        var s2 := [last] + tail;
        forall i, j | 0 <= i < j < |s2|
          ensures s2[i] < s2[j]
        {
          assert s2[j] == s[j + 1];
          if i > 0 {
            assert s2[i] == s[i + 1] && s[i + 1] < s[j + 1];
          } else {
            assert s2[i] == s[0] && s[0] < s[j + 1];
          }
        }
        ThinFromAscending(last, tail);
      } else {
        forall i, j | 0 <= i < j < |rest|
          ensures rest[i] < rest[j]
        {
          assert rest[i] == s[i + 1] && rest[j] == s[j + 1];
        }
        ThinFromAscending(rest[0], tail);
        ThinFromSubset(rest[0], tail);
        var t := ThinFrom(rest[0], tail);
        var r := [last] + t;
        assert ThinFrom(last, rest) == r;
        forall i, j | 0 <= i < j < |r|
          ensures r[i] < r[j]
        {
          assert r[j] == t[j - 1];
          if i > 0 {
            assert r[i] == t[i - 1];
          } else {
            assert t[j - 1] in t;
            var k :| 0 <= k < |rest| && rest[k] == t[j - 1];
            assert s[k + 1] == rest[k];
          }
        }
      }
    }
  }

  lemma {:induction false} ThinFromSeparated(last: real, rest: seq<real>)
    ensures Separated(ThinFrom(last, rest))
    decreases |rest|
  {
    if rest != [] {
      var tail := rest[1..];
      if Close(rest[0], last) {
        ThinFromSeparated(last, tail);
      } else {
        ThinFromSeparated(rest[0], tail);
        ThinFromSubset(rest[0], tail);
        var t := ThinFrom(rest[0], tail);
        var r := [last] + t;
        assert ThinFrom(last, rest) == r;
        assert forall i :: 0 <= i < |t| ==> r[i + 1] == t[i];
        assert !Close(r[0], r[1]);
      }
    }
  }

  /** Every value dropped by ThinFrom is close to a value it keeps. */
  lemma {:induction false} ThinFromCovers(last: real, rest: seq<real>)
    ensures forall y :: y in rest ==> exists z :: z in ThinFrom(last, rest) && Close(y, z)
    decreases |rest|
  {
    if rest != [] {
      var tail := rest[1..];
      assert rest == [rest[0]] + tail;
      if Close(rest[0], last) {
        ThinFromCovers(last, tail);
        ThinFromSubset(last, tail);
        var t := ThinFrom(last, tail);
        assert ThinFrom(last, rest) == t;
        assert t[0] in t && Close(rest[0], t[0]);
      } else {
        ThinFromCovers(rest[0], tail);
        ThinFromSubset(rest[0], tail);
        var t := ThinFrom(rest[0], tail);
        var r := [last] + t;
        assert ThinFrom(last, rest) == r;
        assert r[1] in r && Close(rest[0], r[1]);
        forall y | y in tail
          ensures exists z :: z in r && Close(y, z)
        {
          var z :| z in t && Close(y, z);
          assert z in r;
        }
      }
    }
  }

  /** sort_and_remove_dupl yields a strictly ascending list, no two adjacent
      values of which are close; every value kept is an input value, and every
      input value is close to a kept one. */
  lemma DeduplProperties(xs: seq<real>)
    ensures StrictlyAscending(Dedupl(xs))
    ensures Separated(Dedupl(xs))
    ensures forall y :: y in Dedupl(xs) ==> y in xs
    ensures forall y :: y in xs ==> exists z :: z in Dedupl(xs) && Close(y, z)
  {
    var s := SortedUnique(xs);
    if s != [] {
      assert [s[0]] + s[1..] == s;
      ThinFromSubset(s[0], s[1..]);
      ThinFromAscending(s[0], s[1..]);
      ThinFromSeparated(s[0], s[1..]);
      ThinFromCovers(s[0], s[1..]);
      forall y | y in xs
        ensures exists z :: z in Dedupl(xs) && Close(y, z)
      {
        assert y in s;
        if y == s[0] {
          assert Close(y, y);
        } else {
          assert y in s[1..];
        }
      }
    }
  }

  lemma {:induction false} SortedUniqueOfAscending(s: seq<real>)
    requires StrictlyAscending(s)
    ensures SortedUnique(s) == s
  {
    if s != [] {
      SortedUniqueOfAscending(s[1..]);
      assert [s[0]] + s[1..] == s;
    }
  }

  lemma {:induction false} ThinFromKeepsSeparated(last: real, rest: seq<real>)
    requires Separated([last] + rest)
    ensures ThinFrom(last, rest) == [last] + rest
    decreases |rest|
  {
    var s := [last] + rest;
    if rest != [] {
      assert !Close(s[0], s[1]);
      assert !Close(rest[0], last);
      assert [rest[0]] + rest[1..] == rest;
      assert forall k :: 0 <= k < |rest| ==> rest[k] == s[k + 1];
      ThinFromKeepsSeparated(rest[0], rest[1..]);
    }
  }

  /** Removing near-duplicates a second time changes nothing. */
  lemma DeduplIdempotent(xs: seq<real>)
    ensures Dedupl(Dedupl(xs)) == Dedupl(xs)
  {
    var d := Dedupl(xs);
    DeduplProperties(xs);
    SortedUniqueOfAscending(d);
    if d != [] {
      assert [d[0]] + d[1..] == d;
      ThinFromKeepsSeparated(d[0], d[1..]);
    }
  }

  // ---------------------------------------------------------------------
  // Field-list generators
  // ---------------------------------------------------------------------

  predicate IsElistDir(dir: string)
  {
    dir == "110" || dir == "100" || dir == "010" || dir == "m110"
  }

  predicate IsBlistDir(dir: string)
  {
    IsElistDir(dir) || dir == "001"
  }

  /** In-plane electric field of magnitude v along a named direction. */
  function EVector(dir: string, v: real): (real, real)
    requires IsElistDir(dir)
  {
    if dir == "110" then (v / Sqrt2, v / Sqrt2)
    else if dir == "100" then (v, 0.0)
    else if dir == "010" then (0.0, v)
    else (-v / Sqrt2, v / Sqrt2)
  }

  /** Magnetic field of magnitude v along a named direction. */
  function BVector(dir: string, v: real): Vec3
    requires IsBlistDir(dir)
  {
    if dir == "110" then Vec3(v / Sqrt2, v / Sqrt2, 0.0)
    else if dir == "100" then Vec3(v, 0.0, 0.0)
    else if dir == "010" then Vec3(0.0, v, 0.0)
    else if dir == "m110" then Vec3(-v / Sqrt2, v / Sqrt2, 0.0)
    else Vec3(0.0, 0.0, v)
  }

  /** The signed length along the direction that a generated in-plane
      vector was built from (the component that carries it, rescaled). */
  function EMagnitude(dir: string, e: (real, real)): real
  {
    if dir == "110" then e.0 * Sqrt2
    else if dir == "100" then e.0
    else if dir == "010" then e.1
    else e.1 * Sqrt2
  }

  function BMagnitude(dir: string, b: Vec3): real
  {
    if dir == "110" then b.x * Sqrt2
    else if dir == "100" then b.x
    else if dir == "010" || dir == "m110" then (if dir == "010" then b.y else b.y * Sqrt2)
    else b.z
  }

  /** An in-plane vector lies on the line of a named direction. */
  predicate AlongE(dir: string, e: (real, real))
  {
    if dir == "110" then e.0 == e.1
    else if dir == "100" then e.1 == 0.0
    else if dir == "010" then e.0 == 0.0
    else e.0 == -e.1
  }

  /** A field lies on the line of a named direction. */
  predicate AlongB(dir: string, b: Vec3)
  {
    if dir == "110" then b.x == b.y && b.z == 0.0
    else if dir == "100" then b.y == 0.0 && b.z == 0.0
    else if dir == "010" then b.x == 0.0 && b.z == 0.0
    else if dir == "m110" then b.x == -b.y && b.z == 0.0
    else b.x == 0.0 && b.y == 0.0
  }

  /** On the line of a direction, the signed length along it fixes the
      in-plane vector: it is the one EVector builds. */
  lemma EVectorDetermined(dir: string, e: (real, real))
    requires IsElistDir(dir) && AlongE(dir, e)
    ensures e == EVector(dir, EMagnitude(dir, e))
  {
    ConstantBounds();
    assert (e.0 * Sqrt2) / Sqrt2 == e.0;
    assert (e.1 * Sqrt2) / Sqrt2 == e.1;
  }

  /** The same for fields: BVector is the only field on the line with that
      signed length. */
  lemma BVectorDetermined(dir: string, b: Vec3)
    requires IsBlistDir(dir) && AlongB(dir, b)
    ensures b == BVector(dir, BMagnitude(dir, b))
  {
    ConstantBounds();
    assert (b.x * Sqrt2) / Sqrt2 == b.x;
    assert (b.y * Sqrt2) / Sqrt2 == b.y;
  }

  /** gen_Elist: one in-plane vector per de-duplicated value; None where the
      direction is unknown (the assertion fails). */
  function GenElist(input: seq<real>, dir: string): (r: Option<seq<(real, real)>>)
    ensures r.Some? <==> IsElistDir(dir)
    ensures r.Some? ==> |r.value| == |Dedupl(input)|
  {
    var d := Dedupl(input);
    if IsElistDir(dir) then Some(seq(|d|, k requires 0 <= k < |d| => EVector(dir, d[k]))) else None
  }

  /** gen_Blist: as gen_Elist, with the out-of-plane direction "001" as well. */
  function GenBlist(input: seq<real>, dir: string): (r: Option<seq<Vec3>>)
    ensures r.Some? <==> IsBlistDir(dir)
    ensures r.Some? ==> |r.value| == |Dedupl(input)|
  {
    var d := Dedupl(input);
    if IsBlistDir(dir) then Some(seq(|d|, k requires 0 <= k < |d| => BVector(dir, d[k]))) else None
  }

  /** Every generated vector lies on the line of the direction, and their
      signed lengths give back the de-duplicated input, in ascending order;
      with EVectorDetermined this fixes every vector. */
  lemma GenElistRecovers(input: seq<real>, dir: string)
    requires IsElistDir(dir)
    ensures var r := GenElist(input, dir).value;
      forall k :: 0 <= k < |r| ==> AlongE(dir, r[k])
    ensures var r := GenElist(input, dir).value;
      seq(|r|, k requires 0 <= k < |r| => EMagnitude(dir, r[k])) == Dedupl(input)
    ensures StrictlyAscending(Dedupl(input))
  {
    DeduplProperties(input);
    var d := Dedupl(input);
    var r := GenElist(input, dir).value;
    forall k | 0 <= k < |r|
      ensures EMagnitude(dir, r[k]) == d[k]
    {
      ConstantBounds();
      assert r[k] == EVector(dir, d[k]);
      assert (d[k] / Sqrt2) * Sqrt2 == d[k];
    }
  }

  lemma GenBlistRecovers(input: seq<real>, dir: string)
    requires IsBlistDir(dir)
    ensures var r := GenBlist(input, dir).value;
      forall k :: 0 <= k < |r| ==> AlongB(dir, r[k])
    ensures var r := GenBlist(input, dir).value;
      seq(|r|, k requires 0 <= k < |r| => BMagnitude(dir, r[k])) == Dedupl(input)
  {
    var d := Dedupl(input);
    var r := GenBlist(input, dir).value;
    forall k | 0 <= k < |r|
      ensures BMagnitude(dir, r[k]) == d[k]
    {
      ConstantBounds();
      assert r[k] == BVector(dir, d[k]);
      assert (d[k] / Sqrt2) * Sqrt2 == d[k];
    }
  }

  /** Row k of the interleaving holds element k of every list, in list order. */
  function Interleave(lists: seq<seq<Vec3>>, n: nat): (r: seq<Vec3>)
    requires forall d :: 0 <= d < |lists| ==> |lists[d]| >= n
    ensures |r| == n * |lists|
  {
    if n == 0 then []
    else Interleave(lists, n - 1) + seq(|lists|, d requires 0 <= d < |lists| => lists[d][n - 1])
  }

  /** gen_Blist_multiple: the lists for every direction, interleaved. */
  function GenBlistMultiple(input: seq<real>, dirs: seq<string>): (r: Option<seq<Vec3>>)
    ensures r.Some? <==> forall d :: 0 <= d < |dirs| ==> IsBlistDir(dirs[d])
    ensures r.Some? ==> |r.value| == |Dedupl(input)| * |dirs|
  {
    var d := Dedupl(input);
    DeduplIdempotent(input);
    var opts := seq(|dirs|, k requires 0 <= k < |dirs| => GenBlist(d, dirs[k]));
    if forall k :: 0 <= k < |dirs| ==> IsBlistDir(dirs[k]) then
      Some(Interleave(seq(|dirs|, k requires 0 <= k < |dirs| => opts[k].value), |d|))
    else None
  }

  lemma {:induction false} InterleaveAt(lists: seq<seq<Vec3>>, n: nat, k: nat, d: nat)
    requires forall j :: 0 <= j < |lists| ==> |lists[j]| >= n
    requires k < n && d < |lists|
    ensures k * |lists| + d < n * |lists|
    ensures Interleave(lists, n)[k * |lists| + d] == lists[d][k]
  {
    var m := |lists|;
    assert (n - 1) * m + m == n * m;
    if k < n - 1 {
      InterleaveAt(lists, n - 1, k, d);
    } else {
      assert k * m == (n - 1) * m;
    }
  }

  /** Element k·|dirs| + d of gen_Blist_multiple is element k of gen_Blist for dirs[d]. */
  lemma GenBlistMultipleAt(input: seq<real>, dirs: seq<string>, k: nat, d: nat)
    requires forall j :: 0 <= j < |dirs| ==> IsBlistDir(dirs[j])
    requires k < |Dedupl(input)| && d < |dirs|
    ensures k * |dirs| + d < |GenBlistMultiple(input, dirs).value|
    ensures GenBlistMultiple(input, dirs).value[k * |dirs| + d] == GenBlist(input, dirs[d]).value[k]
  {
    var dd := Dedupl(input);
    DeduplIdempotent(input);
    var opts := seq(|dirs|, j requires 0 <= j < |dirs| => GenBlist(dd, dirs[j]));
    var lists := seq(|dirs|, j requires 0 <= j < |dirs| => opts[j].value);
    assert GenBlistMultiple(input, dirs) == Some(Interleave(lists, |dd|));
    assert GenBlist(dd, dirs[d]) == GenBlist(input, dirs[d]);
    InterleaveAt(lists, |dd|, k, d);
  }

  function DirectionLabel(dir: string): string
  {
    if dir == "110" then "[110]"
    else if dir == "100" then "[100]"
    else if dir == "010" then "[010]"
    else if dir == "m110" then "[-110]"
    else "[001]"
  }

  /** Unit fields built by gen_Blist get the label of their direction; for
      other magnitudes only some directions keep it ([100] of magnitude 0.5 is
      labelled [110], and [110] of magnitude √2 is labelled [100]). */
  lemma DirectionOfGeneratedField(dir: string, v: real)
    requires IsBlistDir(dir)
    ensures BDirection(BVector(dir, 1.0)) == DirectionLabel(dir)
    ensures dir == "001" ==> BDirection(BVector(dir, v)) == "[001]"
    ensures (dir == "110" || dir == "m110") && v > 0.0 && v != Sqrt2 ==>
      BDirection(BVector(dir, v)) == DirectionLabel(dir)
    ensures dir == "100" && v > 0.0 && v != 1.0 ==> BDirection(BVector(dir, v)) == "[110]"
    ensures dir == "110" ==> BDirection(BVector(dir, Sqrt2)) == "[100]"
  {
    ConstantBounds();
    assert Sqrt2 / Sqrt2 == 1.0;
    if dir == "110" || dir == "m110" {
      assert 1.0 / Sqrt2 != 1.0 && 1.0 / Sqrt2 > 0.0;
      if v > 0.0 && v != Sqrt2 {
        assert v / Sqrt2 != 1.0 by {
          if v / Sqrt2 == 1.0 { assert v == (v / Sqrt2) * Sqrt2; }
        }
        assert v / Sqrt2 > 0.0;
      }
    }
  }

  /** field_sign of the generated fields with a positive magnitude. */
  lemma FieldSignOfGeneratedField(dir: string, v: real)
    requires IsBlistDir(dir) && v > 0.0
    ensures FieldSign(BVector(dir, v)) == (if dir == "001" || (dir == "100" && v != 1.0) then -1 else 1)
  {
    ConstantBounds();
    assert v / Sqrt2 > 0.0;
  }

  /** str_to_complex: drop the first and last characters and split on the
      comma; the texts of the real and imaginary parts (None where Python
      raises IndexError). */
  function StrToComplex(s: string): (r: Option<(string, string)>)
  {
    var inner := if |s| >= 2 then s[1..|s| - 1] else "";
    var parts := SplitOn(inner, ',');
    if |parts| >= 2 then Some((parts[0], parts[1])) else None
  }

  /** A number written "(re,im)" is split back into its two parts. */
  lemma StrToComplexRoundTrip(re: string, im: string)
    requires ',' !in re && ',' !in im
    ensures StrToComplex("(" + re + "," + im + ")") == Some((re, im))
  {
    var s := "(" + re + "," + im + ")";
    assert s[1..|s| - 1] == re + [','] + im;
    SplitOnFirst(re, ',', im);
    SplitOnFree(im, ',');
  }
}
