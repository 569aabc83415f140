/** The whole sweep (simulation.py): one structure per combination of
    structure number, in-plane electric field and magnetic field, linked to
    up to three neighbours on each side; the paired record streams read up
    to a high-water mark and routed to the first matching structure; the
    auxiliary records keyed by structure and calculation number; and the
    clean-up run over every structure. File contents are given as sequences
    of already-tokenised lines. */
module Simulations {
  import opened Basics
  import opened Calculations
  import opened Structures

  /** The parameters that identify a structure. */
  datatype Key = Key(nStr: int, exy: (real, real), b: Vec3)

  // ---------------------------------------------------------------------
  // Product order and neighbour links
  // ---------------------------------------------------------------------

  /** The keys for one structure number: E-fields outer, B-fields inner. */
  function Row(n: int, es: seq<(real, real)>, bs: seq<Vec3>): (r: seq<Key>)
    ensures |r| == |es| * |bs|
  {
    if es == [] then []
    else seq(|bs|, k requires 0 <= k < |bs| => Key(n, es[0], bs[k])) + Row(n, es[1..], bs)
  }

  /** itertools.product(n_list, in_plane_E_list, B_list): structure number
      outermost, magnetic field innermost. */
  function Product(ns: seq<int>, es: seq<(real, real)>, bs: seq<Vec3>): (r: seq<Key>)
    ensures |r| == |ns| * (|es| * |bs|)
  {
    if ns == [] then []
    else
      var rest := Product(ns[1..], es, bs);
      assert |ns| * (|es| * |bs|) == |es| * |bs| + (|ns| - 1) * (|es| * |bs|);
      Row(ns[0], es, bs) + rest
  }

  lemma {:induction false} RowAt(n: int, es: seq<(real, real)>, bs: seq<Vec3>, e: nat, k: nat)
    requires e < |es| && k < |bs|
    ensures e * |bs| + k < |Row(n, es, bs)| && Row(n, es, bs)[e * |bs| + k] == Key(n, es[e], bs[k])
  {
    MulLess(e, |es|, |bs|, k);
    if e > 0 {
      RowAt(n, es[1..], bs, e - 1, k);
      assert e * |bs| + k == |bs| + ((e - 1) * |bs| + k);
    }
  }

  /** Structure (a, e, k) of the three lists sits at index (a·|E| + e)·|B| + k. */
  lemma {:induction false} ProductAt(ns: seq<int>, es: seq<(real, real)>, bs: seq<Vec3>, a: nat, e: nat, k: nat)
    requires a < |ns| && e < |es| && k < |bs|
    ensures (a * |es| + e) * |bs| + k < |Product(ns, es, bs)|
    ensures Product(ns, es, bs)[(a * |es| + e) * |bs| + k] == Key(ns[a], es[e], bs[k])
  {
    MulLess(e, |es|, |bs|, k);
    RowAt(ns[a], es, bs, e, k);
    BlockAt(ns, es, bs, a, e * |bs| + k);
    IndexSplit(a, e, k, |es|, |bs|);
  }

  /** Position j of block a of the product is position j of row a. */
  lemma {:induction false} BlockAt(ns: seq<int>, es: seq<(real, real)>, bs: seq<Vec3>, a: nat, j: nat)
    requires a < |ns| && j < |es| * |bs|
    ensures a * (|es| * |bs|) + j < |Product(ns, es, bs)|
    ensures Product(ns, es, bs)[a * (|es| * |bs|) + j] == Row(ns[a], es, bs)[j]
  {
    var m := |es| * |bs|;
    MulLess(a, |ns|, m, j);
    if a > 0 {
      BlockAt(ns[1..], es, bs, a - 1, j);
      NextBlock(Row(ns[0], es, bs), Product(ns[1..], es, bs), m, a, j);
    }
  }

  /** Block a of row + rest is block a − 1 of rest when the row is one block long. */
  lemma NextBlock<T>(row: seq<T>, rest: seq<T>, m: nat, a: nat, j: nat)
    requires |row| == m && a > 0 && j < m && (a - 1) * m + j < |rest|
    ensures a * m + j < |row + rest| && (row + rest)[a * m + j] == rest[(a - 1) * m + j]
  {
    MulStep(a, m, j);
    ConcatAt(row, rest, (a - 1) * m + j);
  }

  lemma ConcatAt<T>(u: seq<T>, v: seq<T>, x: nat)
    requires x < |v|
    ensures (u + v)[|u| + x] == v[x]
  {
  }

  lemma IndexSplit(a: nat, e: nat, k: nat, ne: nat, nb: nat)
    ensures (a * ne + e) * nb + k == a * (ne * nb) + (e * nb + k)
  {
  }

  lemma MulStep(a: nat, m: nat, j: nat)
    requires a > 0
    ensures a * m + j == m + ((a - 1) * m + j)
  {
  }

  lemma MulLess(a: nat, n: nat, m: nat, j: nat)
    requires a < n && j < m
    ensures a * m + j < n * m
  {
    assert a * m + j < (a + 1) * m;
    assert (a + 1) * m <= n * m;
  }

  /** previous, previous2, previous3 of the structure at index i. */
  function PreviousLinks(i: nat): (r: seq<Option<nat>>)
    ensures |r| == 3
  {
    [if i > 0 then Some(i - 1) else None, if i > 1 then Some(i - 2) else None, if i > 2 then Some(i - 3) else None]
  }

  /** next, next2, next3 of the structure at index i of n. */
  function NextLinks(i: nat, n: nat): (r: seq<Option<nat>>)
    ensures |r| == 3
  {
    [if i + 1 < n then Some(i + 1) else None, if i + 2 < n then Some(i + 2) else None,
     if i + 3 < n then Some(i + 3) else None]
  }

  /** The k-th link forward and the k-th link back are inverse: next_k of i
      is j exactly when previous_k of j is i, and every link stays in the
      list. */
  lemma LinksMutual(i: nat, j: nat, n: nat, k: nat)
    requires i < n && j < n && k < 3
    ensures NextLinks(i, n)[k] == Some(j) <==> PreviousLinks(j)[k] == Some(i)
    ensures PreviousLinks(i)[k].Some? <==> i >= k + 1
    ensures NextLinks(i, n)[k].Some? <==> i + k + 1 < n
  {
  }

  // ---------------------------------------------------------------------
  // Routing
  // ---------------------------------------------------------------------

  predicate KeyAccepts(key: Key, c: Calculation)
  {
    CalcBelongs(key.nStr, key.exy, key.b, c)
  }

  /** add_to_structures' choice: the first structure accepting the sample. */
  function Route(keys: seq<Key>, c: Calculation, from: nat): (r: Option<nat>)
    requires from <= |keys|
    ensures r.Some? ==> from <= r.value < |keys| && KeyAccepts(keys[r.value], c)
    ensures forall j :: from <= j < |keys| && (r.None? || j < r.value) ==> !KeyAccepts(keys[j], c)
    decreases |keys| - from
  {
    if from == |keys| then None
    else if KeyAccepts(keys[from], c) then Some(from)
    else Route(keys, c, from + 1)
  }

  /** The samples of cs that end up in structure i, in order, each with its
      back-link set to i. */
  function RoutedTo(keys: seq<Key>, cs: seq<Calculation>, i: nat): (r: seq<Calculation>)
    ensures |r| <= |cs|
    ensures forall c :: c in r ==> c.owner == Some(i) && i < |keys| && KeyAccepts(keys[i], c)
  {
    if cs == [] then []
    else
      var c := cs[|cs| - 1];
      RoutedTo(keys, cs[..|cs| - 1], i) + (if Route(keys, c, 0) == Some(i) then [c.(owner := Some(i))] else [])
  }

  /** Each sample lands in at most one structure: the routed lists of all
      structures together are no longer than the input, and a sample no
      structure accepts lands nowhere. */
  lemma {:induction false} RoutedOnce(keys: seq<Key>, cs: seq<Calculation>, i: nat, j: nat, c: Calculation)
    requires i != j
    ensures |RoutedTo(keys, cs + [c], i)| + |RoutedTo(keys, cs + [c], j)|
      <= |RoutedTo(keys, cs, i)| + |RoutedTo(keys, cs, j)| + 1
    ensures Route(keys, c, 0).None? ==> RoutedTo(keys, cs + [c], i) == RoutedTo(keys, cs, i)
  {
    assert (cs + [c])[..|cs|] == cs;
  }

  // ---------------------------------------------------------------------
  // Record streams
  // ---------------------------------------------------------------------

  /** zip of the two streams: as many pairs as the shorter one has lines. */
  function Paired(wkr: seq<seq<real>>, local: seq<seq<real>>): nat
  {
    if |wkr| <= |local| then |wkr| else |local|
  }

  /** The samples parsed from line pairs lo..hi − 1, or the first error. */
  function ParseLines(wkr: seq<seq<real>>, local: seq<seq<real>>, lo: nat, hi: nat): (r: Result<seq<Calculation>>)
    requires hi <= |wkr| && hi <= |local|
    ensures r.Ok? ==> |r.value| == if lo <= hi then hi - lo else 0
    ensures r.Ok? ==> forall k :: lo <= k < hi ==> Parse(wkr[k], local[k]) == Ok(r.value[k - lo])
    decreases hi
  {
    if hi <= lo then Ok([])
    else
      match ParseLines(wkr, local, lo, hi - 1)
      case Err(e) => Err(e)
      case Ok(cs) =>
        match Parse(wkr[hi - 1], local[hi - 1])
        case Err(e) => Err(e)
        case Ok(c) => Ok(cs + [c])
  }

  /** Every line pair past the mark parses exactly when the whole block
      does. */
  lemma {:induction false} ParseLinesOk(wkr: seq<seq<real>>, local: seq<seq<real>>, lo: nat, hi: nat)
    requires hi <= |wkr| && hi <= |local|
    ensures ParseLines(wkr, local, lo, hi).Ok? <==> forall k :: lo <= k < hi ==> Parse(wkr[k], local[k]).Ok?
    decreases hi
  {
    if hi > lo {
      ParseLinesOk(wkr, local, lo, hi - 1);
    }
  }

  /** The first line pair that fails to parse decides the error of every
      longer block. */
  lemma {:induction false} ParseLinesFirstError(wkr: seq<seq<real>>, local: seq<seq<real>>, lo: nat, k: nat, hi: nat)
    requires lo <= k < hi <= |wkr| && hi <= |local|
    requires ParseLines(wkr, local, lo, k).Ok? && Parse(wkr[k], local[k]).Err?
    ensures ParseLines(wkr, local, lo, hi) == Err(Parse(wkr[k], local[k]).error)
    decreases hi
  {
    if hi > k + 1 {
      ParseLinesFirstError(wkr, local, lo, k, hi - 1);
    }
  }

  lemma ReceivedAppend(st: StructState, keys: seq<Key>, cs: seq<Calculation>, c: Calculation, j: nat)
    ensures Received(Received(st, keys, cs, j), keys, [c], j) == Received(st, keys, cs + [c], j)
  {
    RoutedAppend(keys, cs, c, j);
  }

  /** Routing one more sample appends its route to the routes so far. */
  lemma RoutedAppend(keys: seq<Key>, cs: seq<Calculation>, c: Calculation, j: nat)
    ensures RoutedTo(keys, cs + [c], j) == RoutedTo(keys, cs, j) + RoutedTo(keys, [c], j)
  {
    assert (cs + [c])[..|cs|] == cs;
    assert [c][..0] == [];
  }

  // ---------------------------------------------------------------------
  // Auxiliary records
  // ---------------------------------------------------------------------

  /** The sign pair do_swap reads from the structure's annotated sample. */
  function SignFrom(additional: Option<Calculation>): Option<(real, real)>
  {
    if additional.Some? && additional.value.extra.Some? then Some(additional.value.extra.value.gInplaneSign) else None
  }

  /** The (n_str, n_calc) key of an auxiliary line: tokens −2 and −1; None
      where the source raises IndexError or ValueError. */
  function LineKey(tokens: seq<real>): (r: Option<(int, int)>)
    ensures r.Some? ==> |tokens| >= 2 && r.value.0 as real == tokens[|tokens| - 2] && r.value.1 as real == tokens[|tokens| - 1]
  {
    if |tokens| < 2 then None
    else
      var nCalc, nStr := IntToken(tokens[|tokens| - 1]), IntToken(tokens[|tokens| - 2]);
      if nCalc.None? || nStr.None? then None else Some((nStr.value, nCalc.value))
  }

  /** One auxiliary line applied to a structure's samples from index k on:
      every sample with the line's key is annotated, with the sign of the
      structure's annotated sample at that moment, and becomes the
      structure's annotated sample. None where annotating fails. */
  function AnnotateFrom(calcs: seq<Calculation>, additional: Option<Calculation>, tokens: seq<real>,
                        key: (int, int), k: nat): (r: Option<(seq<Calculation>, Option<Calculation>)>)
    requires k <= |calcs|
    ensures r.Some? ==> |r.value.0| == |calcs|
    decreases |calcs| - k
  {
    if k == |calcs| then Some((calcs, additional))
    else if calcs[k].nCalc == key.1 && calcs[k].nStr == key.0 then
      match Annotated(calcs[k], tokens, SignFrom(additional))
      case None => None
      case Some(a) => AnnotateFrom(calcs[k := a], Some(a), tokens, key, k + 1)
    else AnnotateFrom(calcs, additional, tokens, key, k + 1)
  }

  /** A structure's samples and annotated sample after the auxiliary lines,
      taken in order; None where a line has no key or annotating fails. */
  function AnnotateLines(calcs: seq<Calculation>, additional: Option<Calculation>, lines: seq<seq<real>>):
    (r: Option<(seq<Calculation>, Option<Calculation>)>)
    ensures r.Some? ==> |r.value.0| == |calcs|
    decreases |lines|
  {
    if lines == [] then Some((calcs, additional))
    else
      match AnnotateLines(calcs, additional, lines[..|lines| - 1])
      case None => None
      case Some(st) =>
        var key := LineKey(lines[|lines| - 1]);
        if key.None? then None else AnnotateFrom(st.0, st.1, lines[|lines| - 1], key.value, 0)
  }

  /** Annotation only touches samples with the line's key, and only their
      annotation: positions, E_z, owners and keys of all samples stay, and
      the annotated sample, when it changes, is one of the annotated
      samples. */
  lemma {:induction false} AnnotateFromKeeps(calcs: seq<Calculation>, additional: Option<Calculation>,
                                             tokens: seq<real>, key: (int, int), k: nat)
    requires k <= |calcs| && AnnotateFrom(calcs, additional, tokens, key, k).Some?
    ensures var r := AnnotateFrom(calcs, additional, tokens, key, k).value;
      forall j :: 0 <= j < |calcs| ==> r.0[j] == calcs[j].(extra := r.0[j].extra)
    ensures var r := AnnotateFrom(calcs, additional, tokens, key, k).value;
      forall j :: 0 <= j < |calcs| && (j < k || calcs[j].nCalc != key.1 || calcs[j].nStr != key.0) ==> r.0[j] == calcs[j]
    ensures var r := AnnotateFrom(calcs, additional, tokens, key, k).value;
      r.1 == additional || (r.1.Some? && r.1.value in r.0 && r.1.value.nStr == key.0 && r.1.value.nCalc == key.1)
    decreases |calcs| - k
  {
    if k < |calcs| {
      if calcs[k].nCalc == key.1 && calcs[k].nStr == key.0 {
        var a := Annotated(calcs[k], tokens, SignFrom(additional)).value;
        AnnotateFromKeeps(calcs[k := a], Some(a), tokens, key, k + 1);
        var r := AnnotateFrom(calcs, additional, tokens, key, k).value;
        assert r == AnnotateFrom(calcs[k := a], Some(a), tokens, key, k + 1).value;
        if r.1 == Some(a) {
          assert r.0[k] == a;
        }
      } else {
        AnnotateFromKeeps(calcs, additional, tokens, key, k + 1);
      }
    }
  }

  /** A sample that fails a line's annotation spoils every longer list of lines. */
  lemma {:induction false} AnnotateLinesStaysFailed(calcs: seq<Calculation>, additional: Option<Calculation>,
                                                    lines: seq<seq<real>>, l: nat)
    requires l <= |lines| && AnnotateLines(calcs, additional, lines[..l]).None?
    ensures AnnotateLines(calcs, additional, lines).None?
    decreases |lines|
  {
    if l < |lines| {
      var init := lines[..|lines| - 1];
      assert init[..l] == lines[..l];
      AnnotateLinesStaysFailed(calcs, additional, init, l);
    } else {
      assert lines[..l] == lines;
    }
  }

  // ---------------------------------------------------------------------
  // A structure's state and the clean-up passes
  // ---------------------------------------------------------------------

  /** Every field of a structure that the sweep reads or writes. */
  datatype StructState = StructState(
    calcs: seq<Calculation>, limits: (real, real), outerRange: (real, real), innerRange: (real, real),
    minimum: Option<Calculation>, minimumIndex: Option<nat>, eMinDiff: Option<real>,
    additional: Option<Calculation>, previous: seq<Option<nat>>, next: seq<Option<nat>>)

  function StateOf(s: Structure): StructState
    reads s
  {
    StructState(s.calcs, s.limits, s.outerRange, s.innerRange, s.minimum, s.minimumIndex, s.eMinDiff,
                s.additional, s.previous, s.next)
  }

  function KeyOf(s: Structure): Key
  {
    Key(s.nStr, s.exy, s.b)
  }

  /** A structure as generate_structures leaves it at index i of n. */
  function Linked(defaultLimits: (real, real), i: nat, n: nat): StructState
  {
    StructState([], defaultLimits, defaultLimits, defaultLimits, None, None, None, None,
                 PreviousLinks(i), NextLinks(i, n))
  }

  /** Every sample of the structure at index j, and its annotated sample,
      points back at j and is accepted by the structure's key. */
  predicate Owned(st: StructState, j: nat, key: Key)
  {
    (forall c :: c in st.calcs ==> c.owner == Some(j) && KeyAccepts(key, c))
    && (st.additional.Some? ==> st.additional.value.owner == Some(j) && KeyAccepts(key, st.additional.value))
  }

  function Received(st: StructState, keys: seq<Key>, cs: seq<Calculation>, j: nat): StructState
  {
    st.(calcs := st.calcs + RoutedTo(keys, cs, j))
  }

  function SortPass(st: StructState): StructState
  {
    st.(calcs := SortByEz(st.calcs))
  }

  function RepeatsPass(st: StructState): StructState
  {
    st.(calcs := Dedup(st.calcs))
  }

  function LimitsPass(st: StructState, limitUpdate: real): StructState
  {
    st.(limits := Widened(st.limits, st.calcs, limitUpdate))
  }

  function RangesPass(st: StructState, limit: real): StructState
  {
    st.(outerRange := ScanRange(st.calcs, st.limits, limit, true),
        innerRange := ScanRange(st.calcs, st.limits, limit, false))
  }

  function MinimumPass(st: StructState): StructState
  {
    var idx := BestBelow(st.calcs, st.innerRange, |st.calcs|);
    match idx
    case None => st.(minimum := None, minimumIndex := None, eMinDiff := None)
    case Some(i) =>
      st.(minimum := Some(st.calcs[i]), minimumIndex := idx, eMinDiff := Some(st.calcs[i + 1].e.z - st.calcs[i - 1].e.z))
  }

  /** clean_up: sort, remove repeats, update limits, update ranges, update
      minimum, in that order. */
  function Cleaned(st: StructState, limitUpdate: real, limit: real): StructState
  {
    MinimumPass(RangesPass(LimitsPass(RepeatsPass(SortPass(st)), limitUpdate), limit))
  }

  /** The samples after a clean-up: strictly increasing E_z, all drawn from
      the old samples, and every old E_z value still present. */
  lemma CleanedSamples(st: StructState, limitUpdate: real, limit: real)
    ensures var r := Cleaned(st, limitUpdate, limit);
      SortedByEz(r.calcs) && forall k :: 0 <= k < |r.calcs| - 1 ==> r.calcs[k].e.z < r.calcs[k + 1].e.z
    ensures var r := Cleaned(st, limitUpdate, limit);
      forall c :: c in r.calcs ==> c in st.calcs
    ensures var r := Cleaned(st, limitUpdate, limit);
      forall c :: c in st.calcs ==> exists k :: 0 <= k < |r.calcs| && r.calcs[k].e.z == c.e.z
  {
    CleanedCalcs(st, limitUpdate, limit);
    SortedDedupFacts(st.calcs);
  }

  /** Only the sort and the repeat passes touch the samples. */
  lemma CleanedCalcs(st: StructState, limitUpdate: real, limit: real)
    ensures Cleaned(st, limitUpdate, limit).calcs == Dedup(SortByEz(st.calcs))
  {
    var q := RepeatsPass(SortPass(st));
    assert q.calcs == Dedup(SortByEz(st.calcs));
    assert RangesPass(LimitsPass(q, limitUpdate), limit).calcs == q.calcs;
  }

  /** Sorting, then removing repeats: strictly increasing, drawn from the
      input, and every E_z value of the input kept. */
  lemma SortedDedupFacts(s: seq<Calculation>)
    ensures var cs := Dedup(SortByEz(s));
      SortedByEz(cs) && forall k :: 0 <= k < |cs| - 1 ==> cs[k].e.z < cs[k + 1].e.z
    ensures forall c :: c in Dedup(SortByEz(s)) ==> c in s
    ensures var cs := Dedup(SortByEz(s));
      forall c :: c in s ==> exists k :: 0 <= k < |cs| && cs[k].e.z == c.e.z
  {
    SortedDedupStrict(s);
    SortedDedupDrawn(s);
    var sorted := SortByEz(s);
    var cs := Dedup(sorted);
    forall c | c in s
      ensures exists k :: 0 <= k < |cs| && cs[k].e.z == c.e.z
    {
      assert c in multiset(sorted);
      var k := DedupKeepsMember(sorted, c);
    }
  }

  lemma SortedDedupStrict(s: seq<Calculation>)
    ensures var cs := Dedup(SortByEz(s));
      SortedByEz(cs) && forall k :: 0 <= k < |cs| - 1 ==> cs[k].e.z < cs[k + 1].e.z
  {
    DedupSorted(SortByEz(s));
    DedupNoRepeats(SortByEz(s));
  }

  lemma SortedDedupDrawn(s: seq<Calculation>)
    ensures forall c :: c in Dedup(SortByEz(s)) ==> c in s
  {
    var sorted := SortByEz(s);
    forall c | c in Dedup(sorted)
      ensures c in s
    {
      assert c in multiset(sorted);
    }
  }

  lemma DedupKeepsMember(s: seq<Calculation>, c: Calculation) returns (k: nat)
    requires c in s
    ensures k < |Dedup(s)| && Dedup(s)[k].e.z == c.e.z
  {
    var i :| 0 <= i < |s| && s[i] == c;
    k := DedupKeepsValue(s, i);
  }

  /** The limits after a clean-up only widened and clear every sample by
      limitUpdate; the inner range is ordered and nested in the outer one. */
  lemma CleanedLimitsAndRanges(st: StructState, limitUpdate: real, limit: real)
    requires limitUpdate >= 0.0 && 0.0 <= limit <= 0.5 && st.limits.0 <= st.limits.1
    ensures var r := Cleaned(st, limitUpdate, limit);
      r.limits.0 <= st.limits.0 && st.limits.1 <= r.limits.1
      && forall k :: 0 <= k < |r.calcs| ==> r.limits.0 + limitUpdate <= r.calcs[k].e.z <= r.limits.1 - limitUpdate
    ensures var r := Cleaned(st, limitUpdate, limit);
      r.outerRange.0 <= r.innerRange.0 <= r.innerRange.1 <= r.outerRange.1
  {
    var sorted := SortByEz(st.calcs);
    var cs := Dedup(sorted);
    DedupSorted(sorted);
    var lim := Widened(st.limits, cs, limitUpdate);
    var r := Cleaned(st, limitUpdate, limit);
    assert r.calcs == cs && r.limits == lim;
    assert r.outerRange == ScanRange(cs, lim, limit, true) && r.innerRange == ScanRange(cs, lim, limit, false);
    WidenedBracketsSamples(st.limits, cs, limitUpdate);
    assert forall k :: 0 <= k < |cs| ==> lim.0 <= cs[k].e.z <= lim.1;
    RangesNest(cs, lim, limit);
    ScanRangeOrdered(cs, lim, limit, false);
  }

  /** The minimum after a clean-up is the best candidate of the cleaned
      samples in the inner range, described by its value and triplet width;
      links and the annotated sample are untouched. */
  lemma CleanedMinimum(st: StructState, limitUpdate: real, limit: real)
    ensures var r := Cleaned(st, limitUpdate, limit);
      Matches(r.calcs, r.minimumIndex, r.minimum, r.eMinDiff)
    ensures var r := Cleaned(st, limitUpdate, limit);
      r.minimumIndex.None? <==> forall j :: 0 <= j < |r.calcs| ==> !Candidate(r.calcs, r.innerRange, j)
    ensures var r := Cleaned(st, limitUpdate, limit);
      r.minimumIndex.Some? ==>
        forall j :: 0 <= j < |r.calcs| && Candidate(r.calcs, r.innerRange, j) ==> Anti(r.calcs[r.minimumIndex.value]) <= Anti(r.calcs[j])
    ensures var r := Cleaned(st, limitUpdate, limit);
      r.additional == st.additional && r.previous == st.previous && r.next == st.next
  {
    var q := RangesPass(LimitsPass(RepeatsPass(SortPass(st)), limitUpdate), limit);
    assert Cleaned(st, limitUpdate, limit) == MinimumPass(q);
    assert q.additional == st.additional && q.previous == st.previous && q.next == st.next;
    MinimumPassFacts(q);
  }

  /** update_minimum alone: the best candidate in the inner range, or none. */
  lemma MinimumPassFacts(q: StructState)
    ensures var r := MinimumPass(q);
      Matches(r.calcs, r.minimumIndex, r.minimum, r.eMinDiff)
    ensures var r := MinimumPass(q);
      r.minimumIndex.None? <==> forall j :: 0 <= j < |r.calcs| ==> !Candidate(r.calcs, r.innerRange, j)
    ensures var r := MinimumPass(q);
      r.minimumIndex.Some? ==>
        forall j :: 0 <= j < |r.calcs| && Candidate(r.calcs, r.innerRange, j) ==> Anti(r.calcs[r.minimumIndex.value]) <= Anti(r.calcs[j])
    ensures var r := MinimumPass(q);
      r.calcs == q.calcs && r.innerRange == q.innerRange && r.additional == q.additional
      && r.previous == q.previous && r.next == q.next
  {
    BestBelowIsBest(q.calcs, q.innerRange, |q.calcs|);
  }

  /** A sorted sample list is its own sort. */
  lemma {:induction false} SortSortedIsIdentity(s: seq<Calculation>)
    requires SortedByEz(s)
    ensures SortByEz(s) == s
  {
    if s != [] {
      SortSortedIsIdentity(s[1..]);
      assert s == [s[0]] + s[1..];
    }
  }

  /** A list without neighbouring repeats loses nothing to remove_repeats. */
  lemma {:induction false} DedupDistinctIsIdentity(s: seq<Calculation>)
    requires forall k :: 0 <= k < |s| - 1 ==> s[k].e.z != s[k + 1].e.z
    ensures Dedup(s) == s
  {
    if |s| > 1 {
      DedupDistinctIsIdentity(s[1..]);
      assert s == [s[0]] + s[1..];
    }
  }

  /** A state that is already sorted, free of repeats, within limits that
      need no widening, and whose ranges and minimum are up to date is left
      alone by a clean-up. */
  lemma CleanedFixedPoint(r: StructState, limitUpdate: real, limit: real)
    requires SortedByEz(r.calcs) && forall k :: 0 <= k < |r.calcs| - 1 ==> r.calcs[k].e.z != r.calcs[k + 1].e.z
    requires Widened(r.limits, r.calcs, limitUpdate) == r.limits
    requires RangesPass(r, limit) == r && MinimumPass(r) == r
    ensures Cleaned(r, limitUpdate, limit) == r
  {
    SortSortedIsIdentity(r.calcs);
    DedupDistinctIsIdentity(r.calcs);
    assert SortPass(r) == r;
    assert RepeatsPass(r) == r;
    assert LimitsPass(r, limitUpdate) == r;
  }

  lemma MinimumPassIdempotent(p: StructState)
    ensures MinimumPass(MinimumPass(p)) == MinimumPass(p)
  {
    var r := MinimumPass(p);
    assert r.calcs == p.calcs && r.innerRange == p.innerRange;
    match BestBelow(p.calcs, p.innerRange, |p.calcs|)
    case None =>
    case Some(i) =>
  }

  /** A second clean-up changes nothing. */
  lemma CleanedIdempotent(st: StructState, limitUpdate: real, limit: real)
    ensures Cleaned(Cleaned(st, limitUpdate, limit), limitUpdate, limit) == Cleaned(st, limitUpdate, limit)
  {
    var sorted := SortByEz(st.calcs);
    var cs := Dedup(sorted);
    DedupSorted(sorted);
    DedupNoRepeats(sorted);
    WidenedIdempotent(st.limits, cs, limitUpdate);
    var p := RangesPass(LimitsPass(RepeatsPass(SortPass(st)), limitUpdate), limit);
    var r := MinimumPass(p);
    assert r.calcs == cs && r.limits == Widened(st.limits, cs, limitUpdate);
    assert RangesPass(r, limit) == r;
    MinimumPassIdempotent(p);
    CleanedFixedPoint(r, limitUpdate, limit);
  }

  /** read_files' high-water mark: after a read, reading the same streams
      again routes no sample anywhere, and its clean-up leaves every
      structure as the first read left it. */
  lemma RereadAddsNothing(st: StructState, keys: seq<Key>, wkr: seq<seq<real>>, local: seq<seq<real>>,
                          j: nat, limitUpdate: real, limit: real)
    ensures ParseLines(wkr, local, Paired(wkr, local), Paired(wkr, local)) == Ok([])
    ensures var once := Cleaned(st, limitUpdate, limit);
      Cleaned(Received(once, keys, [], j), limitUpdate, limit) == once
  {
    var once := Cleaned(st, limitUpdate, limit);
    assert Received(once, keys, [], j) == once by {
      assert RoutedTo(keys, [], j) == [];
      assert once.calcs + [] == once.calcs;
    }
    CleanedIdempotent(st, limitUpdate, limit);
  }

  lemma SortKeepsMembers(s: seq<Calculation>)
    ensures forall c :: c in SortByEz(s) ==> c in s
  {
    forall c | c in SortByEz(s) ensures c in s {
      assert c in multiset(SortByEz(s));
    }
  }

  lemma OwnedKept(st: StructState, st': StructState, j: nat, key: Key)
    requires Owned(st, j, key)
    requires forall c :: c in st'.calcs ==> c in st.calcs
    requires st'.additional == st.additional
    ensures Owned(st', j, key)
  {
  }

  lemma OwnedReceived(st: StructState, keys: seq<Key>, cs: seq<Calculation>, j: nat)
    requires j < |keys| && Owned(st, j, keys[j])
    ensures Owned(Received(st, keys, cs, j), j, keys[j])
  {
  }

  // ---------------------------------------------------------------------
  // Auxiliary records on one structure
  // ---------------------------------------------------------------------

  /** One auxiliary line applied to a structure's state; None where
      annotating a matching sample fails. */
  function LineApplied(st: StructState, tokens: seq<real>, key: (int, int)): Option<StructState>
  {
    match AnnotateFrom(st.calcs, st.additional, tokens, key, 0)
    case None => None
    case Some(p) => Some(st.(calcs := p.0, additional := p.1))
  }

  /** The auxiliary lines applied in order to a structure's state. */
  function LinesApplied(st: StructState, lines: seq<seq<real>>): Option<StructState>
  {
    match AnnotateLines(st.calcs, st.additional, lines)
    case None => None
    case Some(p) => Some(st.(calcs := p.0, additional := p.1))
  }

  /** The inner loop of read_additional for one structure: every sample with
      the line's key is annotated in place and becomes the structure's
      annotated sample. Samples keep their owner throughout, also when a
      later sample fails. */
  method AnnotateStructure(s: Structure, tokens: seq<real>, key: (int, int), ghost index: nat, ghost sKey: Key)
    returns (ok: bool)
    requires Owned(StateOf(s), index, sKey)
    modifies s`calcs, s`additional
    ensures Owned(StateOf(s), index, sKey)
    ensures ok <==> LineApplied(old(StateOf(s)), tokens, key).Some?
    ensures ok ==> StateOf(s) == LineApplied(old(StateOf(s)), tokens, key).value
  {
    var k := 0;
    while k < |s.calcs|
      invariant k <= |s.calcs|
      invariant AnnotateFrom(s.calcs, s.additional, tokens, key, k) == AnnotateFrom(old(s.calcs), old(s.additional), tokens, key, 0)
      invariant StateOf(s) == old(StateOf(s)).(calcs := s.calcs, additional := s.additional)
      invariant Owned(StateOf(s), index, sKey)
      decreases |s.calcs| - k
    {
      var c := s.calcs[k];
      if c.nCalc == key.1 && c.nStr == key.0 {
        var a := AddAdditional(c, tokens, SignFrom(s.additional));
        if a.None? {
          return false;
        }
        assert c in s.calcs;
        s.calcs := s.calcs[k := a.value];
        s.additional := a;
      }
      k := k + 1;
    }
    return true;
  }

  /** One more auxiliary line: the lines up to l + 1 are the lines up to l
      followed by line l. */
  lemma LinesAppliedStep(st: StructState, lines: seq<seq<real>>, l: nat)
    requires l < |lines|
    ensures LinesApplied(st, lines[..l + 1])
      == match LinesApplied(st, lines[..l])
         case None => None
         case Some(x) => if LineKey(lines[l]).None? then None else LineApplied(x, lines[l], LineKey(lines[l]).value)
  {
    assert lines[..l + 1][..l] == lines[..l];
  }

  // ---------------------------------------------------------------------
  // The sweep
  // ---------------------------------------------------------------------

  /** The loop of generate_structures creating one unlinked structure per key. */
  method MakeStructures(product: seq<Key>, defaultLimits: (real, real)) returns (list: seq<Structure>)
    ensures |list| == |product|
    ensures forall j :: 0 <= j < |list| ==> fresh(list[j]) && KeyOf(list[j]) == product[j]
    ensures forall j :: 0 <= j < |list| ==> StateOf(list[j]) == Linked(defaultLimits, 0, 0)
    ensures forall j, k :: 0 <= j < k < |list| ==> list[j] != list[k]
  {
    list := [];
    var i := 0;
    while i < |product|
      invariant i <= |product| && |list| == i
      invariant forall j :: 0 <= j < i ==> fresh(list[j]) && KeyOf(list[j]) == product[j]
      invariant forall j :: 0 <= j < i ==> StateOf(list[j]) == Linked(defaultLimits, 0, 0)
      invariant forall j, k :: 0 <= j < k < i ==> list[j] != list[k]
    {
      var s := new Structure(product[i].nStr, product[i].exy, product[i].b, defaultLimits);
      list := list + [s];
      i := i + 1;
    }
  }

  /** generate_structures: one new structure per key, linked to its
      neighbours by index. */
  method GenerateStructures(product: seq<Key>, defaultLimits: (real, real)) returns (list: seq<Structure>)
    ensures |list| == |product|
    ensures forall j :: 0 <= j < |list| ==> fresh(list[j]) && KeyOf(list[j]) == product[j]
    ensures forall j :: 0 <= j < |list| ==> StateOf(list[j]) == Linked(defaultLimits, j, |list|)
    ensures forall j, k :: 0 <= j < k < |list| ==> list[j] != list[k]
  {
    list := MakeStructures(product, defaultLimits);
    LinkPrevious(list, defaultLimits);
    LinkNext(list, defaultLimits);
  }

  /** generate_structures' first linking loop: previous, previous2 and
      previous3 of the structure at index i are i − 1, i − 2 and i − 3 when
      those exist. */
  method LinkPrevious(list: seq<Structure>, defaultLimits: (real, real))
    requires forall j :: 0 <= j < |list| ==> StateOf(list[j]) == Linked(defaultLimits, 0, 0)
    requires forall j, k :: 0 <= j < k < |list| ==> list[j] != list[k]
    modifies set j | 0 <= j < |list| :: list[j]
    ensures forall j :: 0 <= j < |list| ==> StateOf(list[j]) == Linked(defaultLimits, j, 0)
  {
    var n := |list|;
    var i := 0;
    while i < n
      invariant i <= n
      invariant forall j :: 0 <= j < n ==> StateOf(list[j]) == Linked(defaultLimits, if j < i then j else 0, 0)
    {
      LinkPreviousAt(list[i], i);
      i := i + 1;
    }
  }

  /** The first linking loop's step for the structure at index i. */
  method LinkPreviousAt(s: Structure, i: nat)
    requires s.previous == PreviousLinks(0)
    modifies s`previous
    ensures s.previous == PreviousLinks(i)
  {
    if i > 0 {
      s.previous := s.previous[0 := Some(i - 1)];
    }
    if i > 1 {
      s.previous := s.previous[1 := Some(i - 2)];
    }
    if i > 2 {
      s.previous := s.previous[2 := Some(i - 3)];
    }
  }

  /** generate_structures' second linking loop, over the reversed list:
      next, next2 and next3 of the structure at index p are p + 1, p + 2 and
      p + 3 when those exist. */
  method LinkNext(list: seq<Structure>, defaultLimits: (real, real))
    requires forall j :: 0 <= j < |list| ==> StateOf(list[j]) == Linked(defaultLimits, j, 0)
    requires forall j, k :: 0 <= j < k < |list| ==> list[j] != list[k]
    modifies set j | 0 <= j < |list| :: list[j]
    ensures forall j :: 0 <= j < |list| ==> StateOf(list[j]) == Linked(defaultLimits, j, |list|)
  {
    var n := |list|;
    var i := 0;
    while i < n
      invariant i <= n
      invariant forall j :: 0 <= j < n ==> StateOf(list[j]) == Linked(defaultLimits, j, if j >= n - i then n else 0)
    {
      var p := n - 1 - i;
      LinkNextAt(list[p], p, i, n);
      i := i + 1;
    }
  }

  /** The second linking loop's step for the structure at index p, the i-th
      from the end of n. */
  method LinkNextAt(s: Structure, p: nat, i: nat, n: nat)
    requires p + i + 1 == n && s.next == NextLinks(p, 0)
    modifies s`next
    ensures s.next == NextLinks(p, n)
  {
    if i > 0 {
      s.next := s.next[0 := Some(p + 1)];
    }
    if i > 1 {
      s.next := s.next[1 := Some(p + 2)];
    }
    if i > 2 {
      s.next := s.next[2 := Some(p + 3)];
    }
  }

  /** How read_files ends: normally (with a solver run requested when there
      was no line pair, either stream being empty), with the first record that failed to parse, or
      with the IndexError of asking for a run on structure 0 when there are
      no structures. */
  datatype ReadOutcome = Read(runRequested: bool) | ParseFailed(error: ParseError) | NoStructure

  /** The whole sweep: the structures in product order with their keys, and
      the number of paired record lines already read. */
  class Simulation {
    const keys: seq<Key>
    const structures: array<Structure>
    var nCalc: nat

    function Objs(): set<Structure>
      reads structures
    {
      set j | 0 <= j < structures.Length :: structures[j]
    }

    /** Distinct structures, one per key, linked to their neighbours by
        index, each owning its samples. */
    ghost predicate Valid()
      reads structures, Objs()
    {
      structures.Length == |keys|
      && (forall j, k :: 0 <= j < k < structures.Length ==> structures[j] != structures[k])
      && (forall j :: 0 <= j < structures.Length ==>
            KeyOf(structures[j]) == keys[j]
            && structures[j].previous == PreviousLinks(j)
            && structures[j].next == NextLinks(j, structures.Length)
            && Owned(StateOf(structures[j]), j, keys[j]))
    }

    /** generate_structures: one structure per (n, E, B) of the product,
        each linked to up to three neighbours on either side; nothing read
        yet. */
    constructor (ns: seq<int>, es: seq<(real, real)>, bs: seq<Vec3>, defaultLimits: (real, real))
      ensures Valid() && fresh(structures) && nCalc == 0
      ensures keys == Product(ns, es, bs) && structures.Length == |ns| * (|es| * |bs|)
      ensures forall j :: 0 <= j < structures.Length ==>
        fresh(structures[j]) && StateOf(structures[j]) == Linked(defaultLimits, j, structures.Length)
    {
      var product := Product(ns, es, bs);
      var list := GenerateStructures(product, defaultLimits);
      var n := |list|;
      keys := product;
      structures := new Structure[n](j requires 0 <= j < n => list[j]);
      nCalc := 0;
      new;
      assert forall j :: 0 <= j < n ==> structures[j] == list[j];
    }

    /** add_to_structures: the sample goes to the first structure that
        accepts it, with its back-link set, and nowhere when none does. */
    method AddToStructures(c: Calculation)
      requires Valid()
      modifies Objs()
      ensures Valid()
      ensures forall j :: 0 <= j < structures.Length ==>
        StateOf(structures[j]) == Received(old(StateOf(structures[j])), keys, [c], j)
    {
      var i := 0;
      while i < structures.Length && !structures[i].Belongs(c)
        invariant i <= structures.Length
        invariant Route(keys, c, i) == Route(keys, c, 0)
      {
        i := i + 1;
      }
      if i < structures.Length {
        ReceiveAt(i, c);
      }
      forall j | 0 <= j < structures.Length
        ensures StateOf(structures[j]) == Received(old(StateOf(structures[j])), keys, [c], j)
      {
        assert [c][..0] == [];
      }
    }

    /** The sample appended to structure i, with its back-link set to i. */
    method ReceiveAt(i: nat, c: Calculation)
      requires Valid() && i < structures.Length && KeyAccepts(keys[i], c)
      modifies structures[i]
      ensures Valid()
      ensures StateOf(structures[i]) == old(StateOf(structures[i])).(calcs := old(structures[i].calcs) + [c.(owner := Some(i))])
      ensures forall j :: 0 <= j < structures.Length && j != i ==> StateOf(structures[j]) == old(StateOf(structures[j]))
    {
      var s := structures[i];
      s.calcs := s.calcs + [c.(owner := Some(i))];
    }

    /** One structure's step of each pass; every other structure is left alone. */
    method SortAt(i: nat)
      requires Valid() && i < structures.Length
      modifies structures[i]
      ensures Valid()
      ensures StateOf(structures[i]) == SortPass(old(StateOf(structures[i])))
      ensures forall j :: 0 <= j < structures.Length && j != i ==> StateOf(structures[j]) == old(StateOf(structures[j]))
    {
      ghost var before := StateOf(structures[i]);
      structures[i].SortPerEz();
      assert StateOf(structures[i]) == SortPass(before);
      SortKeepsMembers(before.calcs);
      OwnedKept(before, StateOf(structures[i]), i, keys[i]);
    }

    method RemoveRepeatsAt(i: nat)
      requires Valid() && i < structures.Length
      modifies structures[i]
      ensures Valid()
      ensures StateOf(structures[i]) == RepeatsPass(old(StateOf(structures[i])))
      ensures forall j :: 0 <= j < structures.Length && j != i ==> StateOf(structures[j]) == old(StateOf(structures[j]))
    {
      ghost var before := StateOf(structures[i]);
      structures[i].RemoveRepeats();
      assert StateOf(structures[i]) == RepeatsPass(before);
      OwnedKept(before, StateOf(structures[i]), i, keys[i]);
    }

    method UpdateLimitsAt(i: nat, limitUpdate: real)
      requires Valid() && i < structures.Length
      modifies structures[i]
      ensures Valid()
      ensures StateOf(structures[i]) == LimitsPass(old(StateOf(structures[i])), limitUpdate)
      ensures forall j :: 0 <= j < structures.Length && j != i ==> StateOf(structures[j]) == old(StateOf(structures[j]))
    {
      ghost var before := StateOf(structures[i]);
      structures[i].UpdateLimits(limitUpdate);
      assert StateOf(structures[i]) == LimitsPass(before, limitUpdate);
    }

    method UpdateRangesAt(i: nat, limit: real)
      requires Valid() && i < structures.Length
      modifies structures[i]
      ensures Valid()
      ensures StateOf(structures[i]) == RangesPass(old(StateOf(structures[i])), limit)
      ensures forall j :: 0 <= j < structures.Length && j != i ==> StateOf(structures[j]) == old(StateOf(structures[j]))
    {
      ghost var before := StateOf(structures[i]);
      structures[i].UpdateRanges(limit);
      assert StateOf(structures[i]) == RangesPass(before, limit);
    }

    method UpdateMinimumAt(i: nat)
      requires Valid() && i < structures.Length
      modifies structures[i]
      ensures Valid()
      ensures StateOf(structures[i]) == MinimumPass(old(StateOf(structures[i])))
      ensures forall j :: 0 <= j < structures.Length && j != i ==> StateOf(structures[j]) == old(StateOf(structures[j]))
    {
      ghost var before := StateOf(structures[i]);
      structures[i].UpdateMinimum();
      assert StateOf(structures[i]) == MinimumPass(before);
    }

    /** sort_structures: every structure's samples sorted by E_z. */
    method SortStructures()
      requires Valid()
      modifies Objs()
      ensures Valid()
      ensures forall j :: 0 <= j < structures.Length ==> StateOf(structures[j]) == SortPass(old(StateOf(structures[j])))
    {
      var i := 0;
      while i < structures.Length
        invariant i <= structures.Length && Valid()
        invariant forall j :: 0 <= j < structures.Length ==>
          StateOf(structures[j]) == if j < i then SortPass(old(StateOf(structures[j]))) else old(StateOf(structures[j]))
      {
        SortAt(i);
        i := i + 1;
      }
    }

    /** remove_repeats over every structure. */
    method RemoveRepeats()
      requires Valid()
      modifies Objs()
      ensures Valid()
      ensures forall j :: 0 <= j < structures.Length ==> StateOf(structures[j]) == RepeatsPass(old(StateOf(structures[j])))
    {
      var i := 0;
      while i < structures.Length
        invariant i <= structures.Length && Valid()
        invariant forall j :: 0 <= j < structures.Length ==>
          StateOf(structures[j]) == if j < i then RepeatsPass(old(StateOf(structures[j]))) else old(StateOf(structures[j]))
      {
        RemoveRepeatsAt(i);
        i := i + 1;
      }
    }

    /** update_limits over every structure. */
    method UpdateLimits(limitUpdate: real)
      requires Valid()
      modifies Objs()
      ensures Valid()
      ensures forall j :: 0 <= j < structures.Length ==>
        StateOf(structures[j]) == LimitsPass(old(StateOf(structures[j])), limitUpdate)
    {
      var i := 0;
      while i < structures.Length
        invariant i <= structures.Length && Valid()
        invariant forall j :: 0 <= j < structures.Length ==>
          StateOf(structures[j]) == if j < i then LimitsPass(old(StateOf(structures[j])), limitUpdate) else old(StateOf(structures[j]))
      {
        UpdateLimitsAt(i, limitUpdate);
        i := i + 1;
      }
    }

    /** update_ranges over every structure. */
    method UpdateRanges(limit: real)
      requires Valid()
      modifies Objs()
      ensures Valid()
      ensures forall j :: 0 <= j < structures.Length ==>
        StateOf(structures[j]) == RangesPass(old(StateOf(structures[j])), limit)
    {
      var i := 0;
      while i < structures.Length
        invariant i <= structures.Length && Valid()
        invariant forall j :: 0 <= j < structures.Length ==>
          StateOf(structures[j]) == if j < i then RangesPass(old(StateOf(structures[j])), limit) else old(StateOf(structures[j]))
      {
        UpdateRangesAt(i, limit);
        i := i + 1;
      }
    }

    /** update_minimum over every structure. */
    method UpdateMinimum()
      requires Valid()
      modifies Objs()
      ensures Valid()
      ensures forall j :: 0 <= j < structures.Length ==> StateOf(structures[j]) == MinimumPass(old(StateOf(structures[j])))
    {
      var i := 0;
      while i < structures.Length
        invariant i <= structures.Length && Valid()
        invariant forall j :: 0 <= j < structures.Length ==>
          StateOf(structures[j]) == if j < i then MinimumPass(old(StateOf(structures[j]))) else old(StateOf(structures[j]))
      {
        UpdateMinimumAt(i);
        i := i + 1;
      }
    }

    /** clean_up: the five passes in their fixed order, each over all
        structures. */
    method CleanUp(limitUpdate: real, limit: real)
      requires Valid()
      modifies Objs()
      ensures Valid()
      ensures forall j :: 0 <= j < structures.Length ==>
        StateOf(structures[j]) == Cleaned(old(StateOf(structures[j])), limitUpdate, limit)
    {
      SortStructures();
      RemoveRepeats();
      UpdateLimits(limitUpdate);
      UpdateRanges(limit);
      UpdateMinimum();
    }

    /** continue_generating's widening: every structure's limits move out by
        exactly 1 on each side. */
    method WidenAllLimits()
      requires Valid()
      modifies Objs()
      ensures Valid()
      ensures forall j :: 0 <= j < structures.Length ==>
        var st := old(StateOf(structures[j]));
        StateOf(structures[j]) == st.(limits := (st.limits.0 - 1.0, st.limits.1 + 1.0))
    {
      var i := 0;
      while i < structures.Length
        invariant i <= structures.Length && Valid()
        invariant forall j :: 0 <= j < structures.Length ==>
          var st := old(StateOf(structures[j]));
          StateOf(structures[j]) == if j < i then st.(limits := (st.limits.0 - 1.0, st.limits.1 + 1.0)) else st
      {
        WidenAt(i);
        i := i + 1;
      }
    }

    method WidenAt(i: nat)
      requires Valid() && i < structures.Length
      modifies structures[i]
      ensures Valid()
      ensures var st := old(StateOf(structures[i]));
        StateOf(structures[i]) == st.(limits := (st.limits.0 - 1.0, st.limits.1 + 1.0))
      ensures forall j :: 0 <= j < structures.Length && j != i ==> StateOf(structures[j]) == old(StateOf(structures[j]))
    {
      structures[i].WidenLimits();
    }
  
    /** The loop of read_files: line pairs from lo on (the 1-based pair
        number above the high-water mark lo) are parsed and routed, until one
        fails to parse. */
    method AddPairs(wkr: seq<seq<real>>, local: seq<seq<real>>, lo: nat) returns (failed: Option<ParseError>)
      requires Valid()
      modifies Objs()
      ensures Valid()
      ensures var parsed := ParseLines(wkr, local, lo, Paired(wkr, local));
        failed == if parsed.Err? then Some(parsed.error) else None
      ensures failed.None? ==> forall j :: 0 <= j < structures.Length ==>
        StateOf(structures[j]) == Received(old(StateOf(structures[j])), keys, ParseLines(wkr, local, lo, Paired(wkr, local)).value, j)
    {
      var pairs := Paired(wkr, local);
      var i := 0;
      ghost var done: seq<Calculation> := [];
      ghost var start := States();
      while i < pairs
        invariant i <= pairs && Valid()
        invariant ParseLines(wkr, local, lo, i) == Ok(done)
        invariant forall j :: 0 <= j < structures.Length ==>
          StateOf(structures[j]) == Received(start[j], keys, done, j)
      {
        i := i + 1;
        if i > lo {
          var parsed := Parse(wkr[i - 1], local[i - 1]);
          if parsed.Err? {
            ParseLinesFirstError(wkr, local, lo, i - 1, pairs);
            return Some(parsed.error);
          }
          AddRouted(parsed.value, start, done);
          done := done + [parsed.value];
        }
      }
      return None;
    }

    /** The states of all structures, in order. */
    ghost function States(): (r: seq<StructState>)
      reads structures, Objs()
      ensures |r| == structures.Length
      ensures forall j :: 0 <= j < structures.Length ==> r[j] == StateOf(structures[j])
    {
      seq(structures.Length, j requires 0 <= j < structures.Length reads structures, Objs() => StateOf(structures[j]))
    }

    /** Routing one more parsed sample on top of the samples routed so far. */
    method AddRouted(c: Calculation, ghost start: seq<StructState>, ghost done: seq<Calculation>)
      requires Valid() && |start| == structures.Length
      requires forall j :: 0 <= j < structures.Length ==> StateOf(structures[j]) == Received(start[j], keys, done, j)
      modifies Objs()
      ensures Valid()
      ensures forall j :: 0 <= j < structures.Length ==> StateOf(structures[j]) == Received(start[j], keys, done + [c], j)
    {
      AddToStructures(c);
      forall j | 0 <= j < structures.Length
        ensures StateOf(structures[j]) == Received(start[j], keys, done + [c], j)
      {
        ReceivedAppend(start[j], keys, done, c, j);
      }
    }

    /** read_files: the paired lines past the high-water mark become samples
        routed to their structures; the mark moves to the number of pairs;
        with no line pair (either stream empty) a solver run is asked for on
        structure 0;
        then the clean-up. */
    method ReadFiles(wkr: seq<seq<real>>, local: seq<seq<real>>, limitUpdate: real, limit: real)
      returns (r: ReadOutcome)
      requires Valid()
      modifies this, Objs()
      ensures Valid()
      ensures var parsed := ParseLines(wkr, local, old(nCalc), Paired(wkr, local));
        (r.ParseFailed? <==> parsed.Err?) && (r.ParseFailed? ==> r.error == parsed.error && nCalc == old(nCalc))
      ensures r.NoStructure? <==>
        ParseLines(wkr, local, old(nCalc), Paired(wkr, local)).Ok? && Paired(wkr, local) == 0 && structures.Length == 0
      ensures r.NoStructure? ==> nCalc == 0
      ensures r.Read? ==> nCalc == Paired(wkr, local) && (r.runRequested <==> Paired(wkr, local) == 0)
      ensures r.Read? ==> forall j :: 0 <= j < structures.Length ==>
        StateOf(structures[j])
        == Cleaned(Received(old(StateOf(structures[j])), keys, ParseLines(wkr, local, old(nCalc), Paired(wkr, local)).value, j),
                   limitUpdate, limit)
    {
      var failed := AddPairs(wkr, local, nCalc);
      if failed.Some? {
        return ParseFailed(failed.value);
      }
      r := Conclude(Paired(wkr, local), limitUpdate, limit);
    }

    /** The end of read_files once every pair is routed: the count of pairs
        read, the outcome, and the clean-up. */
    method Conclude(pairs: nat, limitUpdate: real, limit: real) returns (r: ReadOutcome)
      requires Valid()
      modifies this`nCalc, Objs()
      ensures Valid() && nCalc == pairs && !r.ParseFailed?
      ensures r.NoStructure? <==> pairs == 0 && structures.Length == 0
      ensures r.Read? ==> (r.runRequested <==> pairs == 0)
      ensures r.Read? ==> forall j :: 0 <= j < structures.Length ==>
        StateOf(structures[j]) == Cleaned(old(StateOf(structures[j])), limitUpdate, limit)
    {
      nCalc := pairs;
      if pairs == 0 && structures.Length == 0 {
        return NoStructure;
      }
      r := Read(pairs == 0);
      CleanUp(limitUpdate, limit);
    }

    /** The structure loop of read_additional for one line with its key:
        each structure in turn annotates its matching samples, until one
        annotation fails. */
    method ApplyLine(tokens: seq<real>, key: (int, int)) returns (ok: bool)
      requires Valid()
      modifies Objs()
      ensures Valid()
      ensures ok <==> forall j :: 0 <= j < structures.Length ==> LineApplied(old(StateOf(structures[j])), tokens, key).Some?
      ensures ok ==> forall j :: 0 <= j < structures.Length ==>
        StateOf(structures[j]) == LineApplied(old(StateOf(structures[j])), tokens, key).value
    {
      var k := 0;
      while k < structures.Length
        invariant k <= structures.Length && Valid()
        invariant forall j :: 0 <= j < k ==>
          LineApplied(old(StateOf(structures[j])), tokens, key).Some?
          && StateOf(structures[j]) == LineApplied(old(StateOf(structures[j])), tokens, key).value
        invariant forall j :: k <= j < structures.Length ==> StateOf(structures[j]) == old(StateOf(structures[j]))
      {
        var done := AnnotateAt(k, tokens, key);
        if !done {
          return false;
        }
        k := k + 1;
      }
      return true;
    }

    /** One structure's annotation by a line; every other structure is left alone. */
    method AnnotateAt(k: nat, tokens: seq<real>, key: (int, int)) returns (ok: bool)
      requires Valid() && k < structures.Length
      modifies structures[k]
      ensures Valid()
      ensures ok <==> LineApplied(old(StateOf(structures[k])), tokens, key).Some?
      ensures ok ==> StateOf(structures[k]) == LineApplied(old(StateOf(structures[k])), tokens, key).value
      ensures forall j :: 0 <= j < structures.Length && j != k ==> StateOf(structures[j]) == old(StateOf(structures[j]))
    {
      ok := AnnotateStructure(structures[k], tokens, key, k, keys[k]);
    }

    /** read_additional: every auxiliary line, keyed by its last two tokens,
        annotates the matching samples of every structure; a missing file
        changes nothing, and a line without a key or a failed annotation
        ends the reading. */
    method ReadAdditional(file: Option<seq<seq<real>>>) returns (ok: bool)
      requires Valid()
      modifies Objs()
      ensures Valid()
      ensures file.None? ==> ok && forall j :: 0 <= j < structures.Length ==> StateOf(structures[j]) == old(StateOf(structures[j]))
      ensures file.Some? ==>
        (ok <==> (forall l :: 0 <= l < |file.value| ==> LineKey(file.value[l]).Some?)
                 && forall j :: 0 <= j < structures.Length ==> LinesApplied(old(StateOf(structures[j])), file.value).Some?)
      ensures ok && file.Some? ==> forall j :: 0 <= j < structures.Length ==>
        StateOf(structures[j]) == LinesApplied(old(StateOf(structures[j])), file.value).value
    {
      if file.None? {
        return true;
      }
      var lines := file.value;
      var l := 0;
      ghost var start := States();
      while l < |lines|
        invariant l <= |lines| && Valid()
        invariant forall m :: 0 <= m < l ==> LineKey(lines[m]).Some?
        invariant forall j :: 0 <= j < structures.Length ==>
          LinesApplied(start[j], lines[..l]).Some?
          && StateOf(structures[j]) == LinesApplied(start[j], lines[..l]).value
      {
        var key := LineKey(lines[l]);
        if key.None? {
          return false;
        }
        var done := ApplyNextLine(lines, l, key.value, start);
        if !done {
          return false;
        }
        l := l + 1;
      }
      assert lines[..|lines|] == lines;
      return true;
    }

    /** One pass of the line loop of read_additional: the next line, with
        its key, is applied to every structure; a failure fails the whole
        file. */
    method ApplyNextLine(lines: seq<seq<real>>, l: nat, key: (int, int), ghost start: seq<StructState>)
      returns (done: bool)
      requires Valid() && l < |lines| && LineKey(lines[l]) == Some(key) && |start| == structures.Length
      requires forall j :: 0 <= j < structures.Length ==>
        LinesApplied(start[j], lines[..l]).Some? && StateOf(structures[j]) == LinesApplied(start[j], lines[..l]).value
      modifies Objs()
      ensures Valid()
      ensures done <==> forall j :: 0 <= j < structures.Length ==> LinesApplied(start[j], lines[..l + 1]).Some?
      ensures !done ==> exists j :: 0 <= j < structures.Length && LinesApplied(start[j], lines).None?
      ensures done ==> forall j :: 0 <= j < structures.Length ==>
        StateOf(structures[j]) == LinesApplied(start[j], lines[..l + 1]).value
    {
      forall j | 0 <= j < structures.Length
        ensures LinesApplied(start[j], lines[..l + 1]) == LineApplied(StateOf(structures[j]), lines[l], key)
      {
        LinesAppliedStep(start[j], lines, l);
      }
      done := ApplyLine(lines[l], key);
      if !done {
        ghost var j :| 0 <= j < structures.Length && LinesApplied(start[j], lines[..l + 1]).None?;
        AnnotateLinesStaysFailed(start[j].calcs, start[j].additional, lines, l + 1);
      }
    }
  }
}
