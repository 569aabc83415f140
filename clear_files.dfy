/** Which result files a clean-up deletes (clear_files.py). Directory
    listings are parameters and deletions are returned as a list of names
    instead of being performed. */
module ClearFiles {
  import opened Basics

  /** Projects whose files are never touched. */
  const IgnoreProjects: seq<string> := ["lh_maps", "light_holes_12states"]

  /** What happens to one project's files: the names removed, in order, and
      whether the scan stopped on a bin_h name whose number does not parse. */
  datatype Outcome = Outcome(removed: seq<string>, crashed: bool)

  predicate IsAuxiliary(file: string)
  {
    Contains(file, "map") || Contains(file, "spec.plt") || Contains(file, "info")
  }

  predicate IsBin(file: string)
  {
    Contains(file, "bin_h")
  }

  /** The structure number of a bin_h file: the integer in characters 1 to 4. */
  function BinNumber(file: string): Option<int>
  {
    ParseInt(Slice(file, 1, 5))
  }

  function Prepend(xs: seq<string>, o: Outcome): (r: Outcome)
    ensures r.crashed == o.crashed && r.removed == xs + o.removed
  {
    Outcome(xs + o.removed, o.crashed)
  }

  /** The removals the scan makes over files, given the number and name of the
      last bin_h file seen so far. */
  function Removals(files: seq<string>, current: int, last: string): Outcome
  {
    if files == [] then Outcome([], false)
    else
      var f := files[0];
      if IsAuxiliary(f) then Prepend([f], Removals(files[1..], current, last))
      else if IsBin(f) then
        match BinNumber(f)
        case None => Outcome([], true)
        case Some(n) => Prepend(if n == current then [last] else [], Removals(files[1..], n, f))
      else Removals(files[1..], current, last)
  }

  /** The scan of one project's directory, starting from number 0 and no file. */
  method ClearProject(files: seq<string>) returns (o: Outcome)
    ensures o == Removals(files, 0, "")
  {
    var removed: seq<string> := [];
    var current, last := 0, "";
    var i := 0;
    while i < |files|
      invariant 0 <= i <= |files|
      invariant Prepend(removed, Removals(files[i..], current, last)) == Removals(files, 0, "")
    {
      var f := files[i];
      assert files[i..][1..] == files[i + 1..];
      if IsAuxiliary(f) {
        removed := removed + [f];
      } else if IsBin(f) {
        var n := BinNumber(f);
        if n.None? {
          return Outcome(removed, true);
        }
        if n.value == current {
          removed := removed + [last];
        }
        current, last := n.value, f;
      }
      i := i + 1;
    }
    o := Outcome(removed, false);
  }

  /** The projects visited: the named one alone, or every listed one, without the ignored ones. */
  function Projects(projectName: string, listing: seq<string>): (r: seq<string>)
    ensures forall p :: p in r ==> p !in IgnoreProjects
    ensures projectName != "" ==> r == (if projectName in IgnoreProjects then [] else [projectName])
    ensures projectName == "" ==> forall p :: p in listing && p !in IgnoreProjects ==> p in r
  {
    if projectName != "" then (if projectName in IgnoreProjects then [] else [projectName])
    else Unignored(listing)
  }

  function Unignored(ps: seq<string>): (r: seq<string>)
    ensures forall p :: p in r <==> p in ps && p !in IgnoreProjects
  {
    if ps == [] then []
    else (if ps[0] in IgnoreProjects then [] else [ps[0]]) + Unignored(ps[1..])
  }

  /** clear_files: the removals in each visited project, in order; the run
      stops at the first project whose scan crashes. A project missing from
      the listings has no files. */
  method ClearAll(projectName: string, listing: seq<string>, filesOf: map<string, seq<string>>)
    returns (done: seq<(string, Outcome)>)
    ensures |done| <= |Projects(projectName, listing)|
    ensures forall k :: 0 <= k < |done| ==> done[k].0 == Projects(projectName, listing)[k]
    ensures forall k :: 0 <= k < |done| ==>
      done[k].1 == Removals(if done[k].0 in filesOf then filesOf[done[k].0] else [], 0, "")
    ensures forall k :: 0 <= k < |done| - 1 ==> !done[k].1.crashed
    ensures (|done| > 0 && done[|done| - 1].1.crashed) || |done| == |Projects(projectName, listing)|
  {
    var projects := Projects(projectName, listing);
    done := [];
    var i := 0;
    while i < |projects|
      invariant 0 <= i <= |projects| && |done| == i
      invariant forall k :: 0 <= k < i ==> done[k].0 == projects[k]
      invariant forall k :: 0 <= k < i ==>
        done[k].1 == Removals(if done[k].0 in filesOf then filesOf[done[k].0] else [], 0, "")
      invariant forall k :: 0 <= k < i ==> !done[k].1.crashed
    {
      var p := projects[i];
      var o := ClearProject(if p in filesOf then filesOf[p] else []);
      done := done + [(p, o)];
      if o.crashed {
        return;
      }
      i := i + 1;
    }
  }

  /** Every map, gnuplot or info file of a scan that does not crash is removed. */
  lemma {:induction false} AuxiliaryRemoved(files: seq<string>, current: int, last: string, f: string)
    requires f in files && IsAuxiliary(f) && !Removals(files, current, last).crashed
    ensures f in Removals(files, current, last).removed
  {
    if files[0] != f {
      var tail := files[1..];
      assert f in tail;
      if IsAuxiliary(files[0]) {
        AuxiliaryRemoved(tail, current, last, f);
      } else if IsBin(files[0]) {
        AuxiliaryRemoved(tail, BinNumber(files[0]).value, files[0], f);
      } else {
        AuxiliaryRemoved(tail, current, last, f);
      }
    }
  }

  /** A bin_h file of the scan that is not auxiliary and parses to number n. */
  predicate BinOf(f: string, n: int)
  {
    !IsAuxiliary(f) && IsBin(f) && BinNumber(f) == Some(n)
  }

  /** In a run of bin_h files with the same number, following a different
      number, every file but the last is removed. */
  lemma {:induction false} RunKeepsLast(files: seq<string>, n: int, current: int, last: string)
    requires |files| > 0 && current != n
    requires forall k :: 0 <= k < |files| ==> BinOf(files[k], n)
    ensures Removals(files, current, last) == Outcome(files[..|files| - 1], false)
  {
    RunTail(files[1..], n, files[0]);
    if |files| > 1 {
      assert files[..|files| - 1] == [files[0]] + files[1..][..|files| - 2];
    }
  }

  lemma {:induction false} RunTail(files: seq<string>, n: int, last: string)
    requires forall k :: 0 <= k < |files| ==> BinOf(files[k], n)
    ensures Removals(files, n, last) ==
      Outcome(if files == [] then [] else [last] + files[..|files| - 1], false)
  {
    if files != [] {
      assert BinOf(files[0], n);
      RunTail(files[1..], n, files[0]);
      if |files| > 1 {
        assert [files[0]] + files[1..][..|files| - 2] == files[..|files| - 1];
      }
    }
  }

  /** Names for the examples below: bin_h files of structure 1 and 0, and an
      info file that also contains "bin_h". */
  const Bin1: string := "b0001bin_h"
  const Info1: string := "b0001bin_h_info"
  const Bin0: string := "b0000bin_h"

  lemma NotAuxiliary(f: string)
    requires 'm' !in f && 's' !in f && 'f' !in f
    ensures !IsAuxiliary(f)
  {
    NotContains(f, "map", 0);
    NotContains(f, "spec.plt", 0);
    NotContains(f, "info", 2);
  }

  lemma IsBinAt5(f: string)
    requires 'm' !in f && 's' !in f && 'f' !in f
    requires |f| >= 10 && f[5..10] == "bin_h"
    ensures !IsAuxiliary(f) && IsBin(f)
  {
    NotAuxiliary(f);
    ContainsAt(f, "bin_h", 5);
  }

  lemma Bin1Number()
    ensures BinNumber(Bin1) == Some(1)
  {
    assert Slice(Bin1, 1, 5) == "0001";
    assert "00"[..1] == "0" && "000"[..2] == "00" && "0001"[..3] == "000";
    assert DigitsValue("0001") == 1;
  }

  lemma Bin0Number()
    ensures BinNumber(Bin0) == Some(0)
  {
    assert Slice(Bin0, 1, 5) == "0000";
    assert "00"[..1] == "0" && "000"[..2] == "00" && "0000"[..3] == "000";
    assert DigitsValue("0000") == 0;
  }

  lemma Bin1Facts()
    ensures BinOf(Bin1, 1)
  {
    assert forall k :: 0 <= k < |Bin1| ==> Bin1[k] != 'm' && Bin1[k] != 's' && Bin1[k] != 'f';
    assert Bin1[5..10] == "bin_h";
    IsBinAt5(Bin1);
    Bin1Number();
  }

  lemma Bin0Facts()
    ensures BinOf(Bin0, 0)
  {
    assert forall k :: 0 <= k < |Bin0| ==> Bin0[k] != 'm' && Bin0[k] != 's' && Bin0[k] != 'f';
    assert Bin0[5..10] == "bin_h";
    IsBinAt5(Bin0);
    Bin0Number();
  }

  lemma Info1Facts()
    ensures IsAuxiliary(Info1)
  {
    ContainsAt(Info1, "info", 11);
  }

  /** A file named both info and bin_h is removed as an info file and does not
      become the last bin_h file, so the next bin_h file with the same number
      removes the one before it. */
  lemma InfoDoesNotTrackBin()
    ensures Removals([Bin1, Info1, Bin1], 0, "").removed == [Info1, Bin1]
  {
    Bin1Facts();
    Info1Facts();
    AuxiliaryBetweenBins(Bin1, Info1);
  }

  /** An auxiliary file between two bin_h files numbered 1. */
  lemma AuxiliaryBetweenBins(b: string, a: string)
    requires BinOf(b, 1) && IsAuxiliary(a)
    ensures Removals([b, a, b], 0, "").removed == [a, b]
  {
    assert [b][1..] == [];
    assert Removals([b], 1, b) == Outcome([b], false);
    assert [a, b][1..] == [b];
    assert [b, a, b][1..] == [a, b];
  }

  /** With the initial number 0, a first bin_h file numbered 0 asks to remove
      the empty name, i.e. the directory path itself. */
  lemma FirstZeroRemovesEmptyName()
    ensures Removals([Bin0], 0, "").removed == [""]
  {
    Bin0Facts();
    FirstBinZero(Bin0);
  }

  lemma FirstBinZero(b: string)
    requires BinOf(b, 0)
    ensures Removals([b], 0, "").removed == [""]
  {
    assert [b][1..] == [];
  }
}
