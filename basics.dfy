/** Small shared vocabulary: optional values, Python's int() on floats and on
    text, and the substring / split operations the sampler applies to log lines,
    file names and tokens. */
module Basics {

  datatype Option<+T> = None | Some(value: T)

  /** A three-component field vector (electric or magnetic field). */
  datatype Vec3 = Vec3(x: real, y: real, z: real)

  function Abs(x: real): real { if x < 0.0 then -x else x }

  /** Python's int() applied to a float: truncation toward zero. */
  function Trunc(x: real): (r: int)
    ensures 0.0 <= x ==> 0 <= r && r as real <= x < r as real + 1.0
    ensures x < 0.0 ==> r <= 0 && r as real - 1.0 < x <= r as real
  {
    if x >= 0.0 then x.Floor else -((-x).Floor)
  }

  /** Python's index rule for a list of length n: negative indices count from the end. */
  function PyIndex(k: int, n: nat): Option<nat>
  {
    if 0 <= k < n then Some(k) else if -(n as int) <= k < 0 then Some((n as int + k) as nat) else None
  }

  /** Python's `sub in s` for strings. */
  predicate Contains(s: string, sub: string)
    decreases |s|
  {
    |sub| <= |s| && (s[..|sub|] == sub || Contains(s[1..], sub))
  }

  /** An occurrence at position k makes the substring test succeed. */
  lemma {:induction false} ContainsAt(s: string, sub: string, k: nat)
    requires k + |sub| <= |s| && s[k..k + |sub|] == sub
    ensures Contains(s, sub)
    decreases k
  {
    if k > 0 {
      assert s[1..][k - 1..k - 1 + |sub|] == sub;
      ContainsAt(s[1..], sub, k - 1);
    }
  }

  /** A text lacking one of sub's characters does not contain sub. */
  lemma {:induction false} NotContains(s: string, sub: string, j: nat)
    requires j < |sub| && sub[j] !in s
    ensures !Contains(s, sub)
    decreases |s|
  {
    if |sub| <= |s| {
      assert s[..|sub|] != sub by {
        assert s[..|sub|][j] == s[j] && s[j] in s;
      }
      assert forall ch :: ch in s[1..] ==> ch in s;
      NotContains(s[1..], sub, j);
    }
  }

  /** Python's `s.split(c)` for a one-character separator: never empty. */
  function SplitOn(s: string, c: char): (parts: seq<string>)
    ensures |parts| >= 1
  {
    if s == [] then [[]]
    else if s[0] == c then [[]] + SplitOn(s[1..], c)
    else
      var t := SplitOn(s[1..], c);
      [[s[0]] + t[0]] + t[1..]
  }

  lemma {:induction false} SplitOnFree(s: string, c: char)
    requires c !in s
    ensures SplitOn(s, c) == [s]
  {
    if s != [] {
      assert s[0] != c by { assert s[0] in s; }
      SplitOnFree(s[1..], c);
      assert [s[0]] + s[1..] == s;
    }
  }

  lemma {:induction false} SplitOnFirst(a: string, c: char, b: string)
    requires c !in a
    ensures SplitOn(a + [c] + b, c) == [a] + SplitOn(b, c)
  {
    if a == [] {
      assert a + [c] + b == [c] + b;
    } else {
      var w := a + [c] + b;
      assert w[0] == a[0] && a[0] != c by { assert a[0] in a; }
      assert w[1..] == a[1..] + [c] + b;
      SplitOnFirst(a[1..], c, b);
      assert [a[0]] + a[1..] == a;
    }
  }

  /** The whitespace Python's argument-less split() separates on (ASCII part). */
  predicate IsSpace(ch: char)
  {
    ch == ' ' || ch == '\t' || ch == '\n' || ch == '\r' || ch == '\U{000B}' || ch == '\U{000C}'
  }

  /** Python's `s.split()[0]`: None where Python raises IndexError. */
  function FirstToken(s: string): (r: Option<string>)
    ensures r.Some? ==> |r.value| > 0 && forall i :: 0 <= i < |r.value| ==> !IsSpace(r.value[i])
  {
    if s == [] then None
    else if IsSpace(s[0]) then FirstToken(s[1..])
    else Some(TakeWord(s))
  }

  function TakeWord(s: string): (r: string)
    ensures |r| <= |s| && forall i :: 0 <= i < |r| ==> !IsSpace(r[i])
    ensures s != [] && !IsSpace(s[0]) ==> |r| > 0
  {
    if s == [] || IsSpace(s[0]) then [] else [s[0]] + TakeWord(s[1..])
  }

  predicate IsDigit(ch: char) { '0' <= ch <= '9' }

  function DigitsValue(s: string): nat
    requires forall i :: 0 <= i < |s| ==> IsDigit(s[i])
  {
    if s == [] then 0
    else
      assert IsDigit(s[|s| - 1]);
      DigitsValue(s[..|s| - 1]) * 10 + (s[|s| - 1] as int - '0' as int)
  }

  /** Python's int() on text: an optional sign followed by decimal digits;
      None where Python raises ValueError. */
  function ParseInt(s: string): Option<int>
  {
    if |s| > 0 && (s[0] == '-' || s[0] == '+') then
      var d := s[1..];
      if |d| > 0 && forall i :: 0 <= i < |d| ==> IsDigit(d[i]) then
        Some(if s[0] == '-' then 0 - DigitsValue(d) else DigitsValue(d))
      else None
    else if |s| > 0 && forall i :: 0 <= i < |s| ==> IsDigit(s[i]) then Some(DigitsValue(s))
    else None
  }

  /** Python's slice s[i:j] with non-negative bounds, clamped to the string. */
  function Slice<T>(s: seq<T>, i: nat, j: nat): seq<T>
  {
    if i >= |s| || j <= i then [] else s[i..if j <= |s| then j else |s|]
  }
}
