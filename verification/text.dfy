/** The string operations the credential parser relies on: `str.strip()`,
    the substring test `d in s` and `str.split(d, 1)`, both of which search
    for the first occurrence of the separator. */
module Text {
  import opened Wrappers

  /** The ASCII characters for which Python's `str.isspace()` holds:
      space, tab, line feed, vertical tab, form feed, carriage return and
      the four separators 0x1C to 0x1F. */
  predicate IsSpace(c: char) {
    c == ' ' || c == '\t' || c == '\n' || c == '\r' ||
    c == '\U{0B}' || c == '\U{0C}' ||
    c == '\U{1C}' || c == '\U{1D}' || c == '\U{1E}' || c == '\U{1F}'
  }

  predicate AllSpace(s: string) {
    forall i | 0 <= i < |s| :: IsSpace(s[i])
  }

  /** Neither the first nor the last character is whitespace. */
  predicate NoEdgeSpace(s: string) {
    s == [] || (!IsSpace(s[0]) && !IsSpace(s[|s| - 1]))
  }

  /** `s.lstrip()`: drops leading whitespace, so the result does not start
      with a space. `TrimStartShape` says what it keeps. */
  function TrimStart(s: string): (r: string)
    ensures |r| <= |s| && (r == [] || !IsSpace(r[0]))
    decreases |s|
  {
    if s != [] && IsSpace(s[0]) then TrimStart(s[1..]) else s
  }

  /** What `lstrip()` keeps is a suffix, and what it drops is whitespace. */
  lemma {:induction false} TrimStartShape(s: string)
    ensures var r := TrimStart(s);
      |r| <= |s| && r == s[|s| - |r|..] && AllSpace(s[..|s| - |r|])
    decreases |s|
  {
    if s != [] && IsSpace(s[0]) {
      TrimStartShape(s[1..]);
      var r := TrimStart(s[1..]);
      assert s[1..][|s| - 1 - |r|..] == s[|s| - |r|..];
      assert s[..|s| - |r|] == [s[0]] + s[1..][..|s| - 1 - |r|];
    } else {
      assert s[..0] == [];
    }
  }

  /** `s.rstrip()`: drops trailing whitespace, so the result does not end
      with a space. `TrimEndShape` says what it keeps. */
  function TrimEnd(s: string): (r: string)
    ensures |r| <= |s| && (r == [] || !IsSpace(r[|r| - 1]))
    decreases |s|
  {
    if s != [] && IsSpace(s[|s| - 1]) then TrimEnd(s[..|s| - 1]) else s
  }

  /** What `rstrip()` keeps is a prefix, and what it drops is whitespace. */
  lemma {:induction false} TrimEndShape(s: string)
    ensures var r := TrimEnd(s);
      |r| <= |s| && r == s[..|r|] && AllSpace(s[|r|..])
    decreases |s|
  {
    if s != [] && IsSpace(s[|s| - 1]) {
      TrimEndShape(s[..|s| - 1]);
      var r := TrimEnd(s[..|s| - 1]);
      assert s[..|s| - 1][..|r|] == s[..|r|];
      assert s[|r|..] == s[..|s| - 1][|r|..] + [s[|s| - 1]];
    } else {
      assert s[|s|..] == [];
    }
  }

  /** `s.strip()`: both ends trimmed, so neither end is whitespace.
      `StripShape` says which part of `s` it is. */
  function Strip(s: string): (r: string)
    ensures |r| <= |TrimStart(s)| && NoEdgeSpace(r)
  {
    var t := TrimStart(s);
    TrimEndShape(t);
    TrimEnd(t)
  }

  /** `strip()` keeps the part of `s` between a leading and a trailing run
      of whitespace. */
  lemma StripShape(s: string)
    ensures var i, r := |s| - |TrimStart(s)|, Strip(s);
      i + |r| <= |s| && r == s[i..i + |r|] && AllSpace(s[..i]) && AllSpace(s[i + |r|..])
  {
    var t := TrimStart(s);
    var r := TrimEnd(t);
    TrimStartShape(s);
    TrimEndShape(t);
    var i := |s| - |t|;
    assert t[..|r|] == s[i..i + |r|];
    assert t[|r|..] == s[i + |r|..];
  }

  /** A slice of the slice `s[a..b]` is a slice of `s` shifted by `a`. */
  lemma SliceOfSlice(s: string, a: int, b: int, j: int, k: int)
    requires 0 <= a <= b <= |s| && 0 <= j <= k <= b - a
    ensures s[a..b][j..k] == s[a + j..a + k]
  {
    assert |s[a..b][j..k]| == k - j;
    forall m | 0 <= m < k - j ensures s[a..b][j..k][m] == s[a + j..a + k][m] {
      assert s[a..b][j..k][m] == s[a..b][j + m] == s[a + j + m];
    }
  }

  lemma {:induction false} TrimStartSkips(w: string, t: string)
    requires AllSpace(w)
    requires t == [] || !IsSpace(t[0])
    ensures TrimStart(w + t) == t
    decreases |w|
  {
    if w != [] {
      assert (w + t)[1..] == w[1..] + t;
      TrimStartSkips(w[1..], t);
    } else {
      assert w + t == t;
    }
  }

  lemma {:induction false} TrimEndSkips(t: string, w: string)
    requires AllSpace(w)
    requires t == [] || !IsSpace(t[|t| - 1])
    ensures TrimEnd(t + w) == t
    decreases |w|
  {
    if w != [] {
      assert (t + w)[..|t + w| - 1] == t + w[..|w| - 1];
      TrimEndSkips(t, w[..|w| - 1]);
    } else {
      assert t + w == t;
    }
  }

  /** `strip()` is determined by its characterisation: whatever lies between
      two whitespace runs and has no whitespace at its edges is the result. */
  lemma StripFramed(w1: string, r: string, w2: string)
    requires AllSpace(w1) && AllSpace(w2) && NoEdgeSpace(r)
    ensures Strip(w1 + r + w2) == r
  {
    if r == [] {
      assert w1 + r + w2 == w1 + w2;
      AllSpaceConcat(w1, w2);
      TrimStartSkips(w1 + w2, []);
      assert w1 + w2 + [] == w1 + w2;
    } else {
      assert w1 + r + w2 == w1 + (r + w2);
      TrimStartSkips(w1, r + w2);
      TrimEndSkips(r, w2);
    }
  }

  /** A string without edge whitespace is its own `strip()`. */
  lemma StripNoEdge(s: string)
    requires NoEdgeSpace(s)
    ensures Strip(s) == s
  {
    StripFramed([], s, []);
    assert [] + s + [] == s;
  }

  lemma AllSpaceConcat(a: string, b: string)
    requires AllSpace(a) && AllSpace(b)
    ensures AllSpace(a + b)
  {
    forall i | 0 <= i < |a + b| ensures IsSpace((a + b)[i]) {
      if i >= |a| { assert (a + b)[i] == b[i - |a|]; }
    }
  }

  /** A line is empty after `strip()` exactly when it is all whitespace. */
  lemma StripEmptyIff(s: string)
    ensures Strip(s) == [] <==> AllSpace(s)
  {
    if AllSpace(s) {
      StripFramed(s, [], []);
      assert s + [] + [] == s;
    }
    if Strip(s) == [] {
      StripShape(s);
      var i := |s| - |TrimStart(s)|;
      assert s == s[..i] + s[i..];
      AllSpaceConcat(s[..i], s[i..]);
    }
  }

  /** `d` occurs in `s` starting at index `i`. */
  predicate OccursAt(s: string, d: string, i: int) {
    0 <= i && i + |d| <= |s| && s[i..i + |d|] == d
  }


  /** The first occurrence of `d` in `s` at or after `start`. */
  function FindFrom(s: string, d: string, start: nat): (r: Option<nat>)
    requires start <= |s|
    ensures r.Some? ==> start <= r.value && OccursAt(s, d, r.value)
    ensures r.Some? ==> forall j | start <= j < r.value :: !OccursAt(s, d, j)
    ensures r.None? ==> forall j | start <= j <= |s| :: !OccursAt(s, d, j)
    decreases |s| - start
  {
    if OccursAt(s, d, start) then Some(start)
    else if start == |s| then None
    else FindFrom(s, d, start + 1)
  }

  /** The first-occurrence search behind `d in s` and `s.split(d, 1)`: the
      index where `d` first occurs in `s`, or `None`. */
  function Find(s: string, d: string): (r: Option<nat>)
    ensures r.Some? ==> OccursAt(s, d, r.value) && forall j | 0 <= j < r.value :: !OccursAt(s, d, j)
    ensures r.None? ==> forall j | 0 <= j <= |s| :: !OccursAt(s, d, j)
  {
    FindFrom(s, d, 0)
  }

  /** Python's `d in s` for strings. */
  predicate Contains(s: string, d: string) {
    Find(s, d).Some?
  }

  /** `d in s` holds exactly when `d` occurs somewhere in `s`. */
  lemma ContainsIff(s: string, d: string)
    ensures Contains(s, d) <==> exists i | 0 <= i <= |s| :: OccursAt(s, d, i)
  {
    if Contains(s, d) {
      assert OccursAt(s, d, Find(s, d).value);
    }
  }

  /** An occurrence inside a slice is an occurrence in the whole string. */
  lemma ContainsSlice(s: string, a: int, b: int, d: string)
    requires 0 <= a <= b <= |s|
    requires Contains(s[a..b], d)
    ensures Contains(s, d)
  {
    var j := Find(s[a..b], d).value;
    SliceOfSlice(s, a, b, j, j + |d|);
    assert OccursAt(s, d, a + j);
  }

  /** What `strip()` leaves of a string holds no substring the string lacks. */
  lemma StripInside(s: string, d: string)
    requires Contains(Strip(s), d)
    ensures Contains(s, d)
  {
    StripShape(s);
    var i := |s| - |TrimStart(s)|;
    ContainsSlice(s, i, i + |Strip(s)|, d);
  }

  /** `s.split(d, 1)`: two parts around the first occurrence of `d`, or `[s]`
      when `d` does not occur. The empty separator makes Python raise. */
  function SplitOnce(s: string, d: string): (parts: seq<string>)
    requires d != []
    ensures 1 <= |parts| <= 2
    ensures |parts| == 2 <==> Contains(s, d)
    ensures |parts| == 1 ==> parts[0] == s
    ensures |parts| == 2 ==> s == parts[0] + d + parts[1] && !Contains(parts[0], d)
    ensures |parts| == 2 ==> forall j | 0 <= j < |parts[0]| :: !OccursAt(s, d, j)
  {
    match Find(s, d)
    case None => [s]
    case Some(i) =>
      var head, tail := s[..i], s[i + |d|..];
      assert s == head + d + tail by {
        assert s == s[..i] + s[i..i + |d|] + s[i + |d|..];
      }
      assert !Contains(head, d) by {
        if Contains(head, d) {
          var j := Find(head, d).value;
          assert head[j..j + |d|] == s[j..j + |d|];
          assert OccursAt(s, d, j) && j < i;
          assert false;
        }
      }
      [head, tail]
  }

  /** Whatever precedes the separator does not decide where the split
      happens unless an occurrence reaches into it: when `u` followed by all
      but the last character of `d` holds no `d`, the first `d` in
      `u + d + p` is the one after `u`. */
  lemma SplitOnceAfter(u: string, d: string, p: string)
    requires d != []
    requires !Contains(u + d[..|d| - 1], d)
    ensures SplitOnce(u + d + p, d) == [u, p]
  {
    var s := u + d + p;
    assert OccursAt(s, d, |u|) by { assert s[|u|..|u| + |d|] == d; }
    var i := Find(s, d).value;
    if i < |u| {
      var m := |u| + |d| - 1;
      var v := u + d[..|d| - 1];
      assert s[..m] == v;
      SliceOfSlice(s, 0, m, i, i + |d|);
      assert OccursAt(v, d, i);
      ContainsIff(v, d);
      assert false;
    }
    assert i == |u|;
    assert s[..i] == u;
    assert s[i + |d|..] == p;
  }

  /** The split is determined: whenever `s` is `a + d + b` and `d` occurs
      nowhere in `s` before `|a|`, `s.split(d, 1)` is `[a, b]`. */
  lemma SplitOnceFirst(s: string, d: string, a: string, b: string)
    requires d != [] && s == a + d + b
    requires forall j | 0 <= j < |a| :: !OccursAt(s, d, j)
    ensures SplitOnce(s, d) == [a, b]
  {
    assert OccursAt(s, d, |a|) by { assert s[|a|..|a| + |d|] == d; }
    var i := Find(s, d).value;
    assert i == |a|;
    assert s[..i] == a;
    assert s[i + |d|..] == b;
  }

  /** With a separator that overlaps itself the first occurrence wins:
      `"aaa".split("aa", 1)` is `["", "a"]`. */
  lemma SplitOverlapExample()
    ensures SplitOnce("aaa", "aa") == ["", "a"]
  {
    SplitOnceFirst("aaa", "aa", "", "a");
  }
}
