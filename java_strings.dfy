/** The parts of `java.lang.String` that the model needs: `trim`, `indexOf`,
    `startsWith`, `contains`, `String.join` and `split` with its Java-specific
    handling of empty pieces. Strings are sequences of Unicode scalar values. */
module JavaStrings {

  /** `String.trim` strips every character up to U+0020 (space) from both ends. */
  predicate IsTrimmed(c: char) {
    c <= ' '
  }

  /** The number of characters `trim` removes from the front. */
  function LeadingTrimmed(s: string): (n: nat)
    ensures n <= |s|
    ensures n == |s| || !IsTrimmed(s[n])
    ensures forall i :: 0 <= i < n ==> IsTrimmed(s[i])
  {
    if s != [] && IsTrimmed(s[0]) then 1 + LeadingTrimmed(s[1..]) else 0
  }

  function TrimEnd(s: string): (r: string)
    ensures |r| <= |s| && r == s[..|r|]
    ensures r == [] || !IsTrimmed(r[|r| - 1])
    ensures forall i :: |r| <= i < |s| ==> IsTrimmed(s[i])
  {
    if s != [] && IsTrimmed(s[|s| - 1]) then TrimEnd(s[..|s| - 1]) else s
  }

  /** `s.trim()`: `s` without its leading and trailing characters up to U+0020. */
  function Trim(s: string): (r: string)
    ensures LeadingTrimmed(s) + |r| <= |s|
    ensures r == s[LeadingTrimmed(s)..LeadingTrimmed(s) + |r|]
    ensures forall i :: LeadingTrimmed(s) + |r| <= i < |s| ==> IsTrimmed(s[i])
    ensures r == [] || (!IsTrimmed(r[0]) && !IsTrimmed(r[|r| - 1]))
  {
    var n := LeadingTrimmed(s);
    var r := TrimEnd(s[n..]);
    assert r == s[n..n + |r|];
    r
  }

  predicate StartsWith<T(==)>(s: seq<T>, prefix: seq<T>) {
    |prefix| <= |s| && s[..|prefix|] == prefix
  }

  predicate EndsWith<T(==)>(s: seq<T>, suffix: seq<T>) {
    |suffix| <= |s| && s[|s| - |suffix|..] == suffix
  }

  predicate OccursAt<T(==)>(s: seq<T>, t: seq<T>, i: int) {
    0 <= i && i + |t| <= |s| && s[i..i + |t|] == t
  }

  /** `s.replace(target, replacement)`: every occurrence, left to right,
      replaced. */
  function ReplaceAll<T(==)>(s: seq<T>, target: seq<T>, replacement: seq<T>): (r: seq<T>)
    requires target != []
    ensures replacement == [] ==> |r| <= |s|
  {
    if s == [] then []
    else if OccursAt(s, target, 0) then replacement + ReplaceAll(s[|target|..], target, replacement)
    else [s[0]] + ReplaceAll(s[1..], target, replacement)
  }

  /** Text without the target is left as it is. */
  lemma {:induction false} ReplaceAllAbsent<T>(s: seq<T>, target: seq<T>, replacement: seq<T>)
    requires target != [] && forall j :: !OccursAt(s, target, j)
    ensures ReplaceAll(s, target, replacement) == s
  {
    if s != [] {
      forall j ensures !OccursAt(s[1..], target, j) {
        assert !OccursAt(s, target, j + 1);
        if 0 <= j && j + |target| <= |s| - 1 {
          assert s[1..][j..j + |target|] == s[j + 1..j + 1 + |target|];
        }
      }
      ReplaceAllAbsent(s[1..], target, replacement);
    }
  }

  /** `s.indexOf(t)`: the first position at which `t` occurs, or -1. */
  function IndexOf<T(==)>(s: seq<T>, t: seq<T>): (r: int)
    ensures r == -1 || OccursAt(s, t, r)
    ensures forall j :: 0 <= j && (r == -1 || j < r) ==> !OccursAt(s, t, j)
  {
    IndexFrom(s, t, 0)
  }

  function IndexFrom<T(==)>(s: seq<T>, t: seq<T>, from: nat): (r: int)
    ensures r == -1 || (from <= r && OccursAt(s, t, r))
    ensures forall j :: from <= j && (r == -1 || j < r) ==> !OccursAt(s, t, j)
    decreases |s| - from
  {
    if from + |t| > |s| then -1
    else if s[from..from + |t|] == t then from
    else IndexFrom(s, t, from + 1)
  }

  predicate Contains<T(==)>(s: seq<T>, t: seq<T>) {
    IndexOf(s, t) != -1
  }

  /** `s.indexOf(c)` for a single element: the first position of `c`, or -1. */
  function FirstIndex<T(==)>(s: seq<T>, c: T): (r: int)
    ensures c !in s <==> r == -1
    ensures c in s ==> 0 <= r < |s| && s[r] == c && c !in s[..r]
  {
    if s == [] then -1
    else if s[0] == c then 0
    else
      var r := FirstIndex(s[1..], c);
      if r == -1 then -1
      else
        assert s[..r + 1] == [s[0]] + s[1..][..r];
        r + 1
  }

  lemma IndexOfSingle<T>(s: seq<T>, c: T)
    ensures IndexOf(s, [c]) == FirstIndex(s, c)
  {
    var i := FirstIndex(s, c);
    if i == -1 {
      forall j | 0 <= j && j < |s| ensures !OccursAt(s, [c], j) {
        assert s[j] in s;
      }
    } else {
      assert OccursAt(s, [c], i);
      forall j | 0 <= j < i ensures !OccursAt(s, [c], j) {
        assert s[..i][j] == s[j];
      }
    }
  }

  /** `String.join(sep, parts)`. */
  function Join<T>(sep: seq<T>, parts: seq<seq<T>>): (r: seq<T>)
    ensures parts == [] ==> r == []
    ensures |parts| == 1 ==> r == parts[0]
  {
    if parts == [] then []
    else if |parts| == 1 then parts[0]
    else parts[0] + sep + Join(sep, parts[1..])
  }

  /** Every piece between occurrences of `c`, empty pieces included. */
  function SplitAll<T(==)>(s: seq<T>, c: T): (r: seq<seq<T>>)
    ensures |r| >= 1
    ensures forall k :: 0 <= k < |r| ==> c !in r[k]
  {
    if c !in s then [s]
    else
      var i := FirstIndex(s, c);
      [s[..i]] + SplitAll(s[i + 1..], c)
  }

  function DropTrailingEmpty<T>(r: seq<seq<T>>): (d: seq<seq<T>>)
    ensures |d| <= |r| && d == r[..|d|]
    ensures d == [] || d[|d| - 1] != []
    ensures forall k :: |d| <= k < |r| ==> r[k] == []
  {
    if r != [] && r[|r| - 1] == [] then DropTrailingEmpty(r[..|r| - 1]) else r
  }

  /** `s.split(sep)` for a one-character separator and the default limit:
      the input itself when `c` does not occur, otherwise the pieces without
      the trailing empty ones. */
  function Split<T(==)>(s: seq<T>, c: T): (r: seq<seq<T>>)
    ensures c !in s ==> r == [s]
    ensures forall k :: 0 <= k < |r| ==> c !in r[k]
  {
    if c !in s then [s] else DropTrailingEmpty(SplitAll(s, c))
  }

  /** `s.split(sep, 2)`: cut at the first `c` only, keeping both parts. */
  function SplitFirst<T(==)>(s: seq<T>, c: T): (r: seq<seq<T>>)
    ensures c !in s ==> r == [s]
    ensures c in s ==> |r| == 2 && r[0] + [c] + r[1] == s && c !in r[0]
  {
    if c !in s then [s]
    else
      var i := FirstIndex(s, c);
      assert s == s[..i] + [c] + s[i + 1..];
      [s[..i], s[i + 1..]]
  }

  /** Cutting `a`, `c`, `b` at its first `c` gives back `a` and `b` when
      `a` holds no `c`. */
  lemma SplitFirstJoin<T>(a: seq<T>, c: T, b: seq<T>)
    requires c !in a
    ensures SplitFirst(a + [c] + b, c) == [a, b]
  {
    var s := a + [c] + b;
    assert s[|a|] == c;
    var r := SplitFirst(s, c);
    assert |r[0]| == |a|;
    assert r[0] == s[..|a|] == a;
    assert r[1] == s[|a| + 1..] == b;
  }

  lemma {:induction false} SplitAllJoin<T>(parts: seq<seq<T>>, c: T)
    requires parts != []
    requires forall k :: 0 <= k < |parts| ==> c !in parts[k]
    ensures SplitAll(Join([c], parts), c) == parts
  {
    if |parts| > 1 {
      var s := Join([c], parts);
      assert s == parts[0] + [c] + Join([c], parts[1..]);
      assert s[..|parts[0]|] == parts[0];
      assert FirstIndex(s, c) == |parts[0]| by {
        assert s[|parts[0]|] == c;
      }
      assert s[..|parts[0]|] == parts[0];
      assert s[|parts[0]| + 1..] == Join([c], parts[1..]);
      SplitAllJoin(parts[1..], c);
    }
  }

  /** `split` undoes `String.join` when no part holds the separator, there is
      at least one part and, if there are several, the last is not empty. */
  lemma {:induction false} SplitJoin<T>(parts: seq<seq<T>>, c: T)
    requires parts != [] && (|parts| == 1 || parts[|parts| - 1] != [])
    requires forall k :: 0 <= k < |parts| ==> c !in parts[k]
    ensures Split(Join([c], parts), c) == parts
  {
    if |parts| > 1 {
      var s := Join([c], parts);
      assert s == parts[0] + [c] + Join([c], parts[1..]);
      assert s[|parts[0]|] == c;
      SplitAllJoin(parts, c);
    }
  }
}
