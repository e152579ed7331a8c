/** How many parents of a path have to be shown to tell it from all others. */
module Disambiguate {

  import opened PathText

  /** The number of slashes in the longest common suffix. */
  function Slashes(a: string, b: string): nat {
    if a == "" || b == "" || Last(a) != Last(b) then 0
    else Slashes(Front(a), Front(b)) + if Last(a) == '/' then 1 else 0
  }

  /** `s` ends both texts and cannot be made longer: one text is `s`, or other characters are before it. */
  ghost predicate LongestCommonSuffix(a: string, b: string, s: string) {
    |s| <= |a| && |s| <= |b| && a[|a| - |s|..] == s && b[|b| - |s|..] == s &&
    (|s| < |a| && |s| < |b| ==> a[|a| - |s| - 1] != b[|b| - |s| - 1])
  }

  /** There are `n` slashes in the longest common suffix. */
  ghost predicate Shares(a: string, b: string, n: nat) {
    exists s :: LongestCommonSuffix(a, b, s) && multiset(s)['/'] == n
  }

  lemma NotLonger(a: string, b: string, s: string, t: string)
    requires LongestCommonSuffix(a, b, s)
    requires |t| <= |a| && |t| <= |b| && a[|a| - |t|..] == t && b[|b| - |t|..] == t
    ensures |t| <= |s| && s[|s| - |t|..] == t
  {
    assert forall i | 0 <= i < |t| :: a[|a| - |t| + i] == t[i] == b[|b| - |t| + i];
    assert |a| - |t| + (|t| - |s| - 1) == |a| - |s| - 1 && |b| - |t| + (|t| - |s| - 1) == |b| - |s| - 1;
  }

  lemma Longer(a: string, b: string, s: string, c: char)
    requires LongestCommonSuffix(a, b, s)
    ensures LongestCommonSuffix(a + [c], b + [c], s + [c])
  {
    assert (a + [c])[|a| - |s|..] == a[|a| - |s|..] + [c];
    assert (b + [c])[|b| - |s|..] == b[|b| - |s|..] + [c];
  }

  lemma {:induction false} LongestHasSlashes(a: string, b: string) returns (s: string)
    ensures LongestCommonSuffix(a, b, s) && multiset(s)['/'] == Slashes(a, b)
  {
    hide LongestCommonSuffix, Slashes;
    OneSlash(a, b);
    if a == "" || b == "" || Last(a) != Last(b) {
      s := "";
      NoneLongest(a, b);
    } else {
      var t := LongestHasSlashes(Front(a), Front(b));
      s := t + [Last(a)];
      Longer(Front(a), Front(b), t, Last(a));
      EndOfSum([], a);
      EndOfSum([], b);
    }
  }

  lemma OneSlash(a: string, b: string)
    ensures a == "" || b == "" || Last(a) != Last(b) ==> Slashes(a, b) == 0
    ensures a != "" && b != "" && Last(a) == Last(b) ==>
              Slashes(a, b) == Slashes(Front(a), Front(b)) + if Last(a) == '/' then 1 else 0
  {
  }

  lemma NoneLongest(a: string, b: string)
    requires a == "" || b == "" || Last(a) != Last(b)
    ensures LongestCommonSuffix(a, b, "")
  {
    assert a[|a|..] == "" && b[|b|..] == "";
  }

  lemma SharesSlashes(a: string, b: string)
    ensures forall n: nat :: Shares(a, b, n) <==> n == Slashes(a, b)
  {
    var s := LongestHasSlashes(a, b);
    forall t | LongestCommonSuffix(a, b, t) ensures t == s {
      NotLonger(a, b, s, t);
      NotLonger(a, b, t, s);
    }
    hide LongestCommonSuffix;
    assert LongestCommonSuffix(a, b, s);
  }

  /** The order of the reversed texts. */
  predicate Less(a: string, b: string) {
    if a == "" || b == "" then a == "" && b != ""
    else if Last(a) != Last(b) then Last(a) < Last(b)
    else Less(Front(a), Front(b))
  }

  predicate UpTo(a: string, b: string) {
    a == b || Less(a, b)
  }

  lemma {:induction false} SameEnds(a: string, b: string)
    requires a != "" && b != "" && Last(a) == Last(b)
    ensures a == b <==> Front(a) == Front(b)
  {
    EndOfSum([], a);
    EndOfSum([], b);
  }

  lemma {:induction false} UpToTransitive(a: string, b: string, c: string)
    requires UpTo(a, b) && UpTo(b, c)
    ensures UpTo(a, c)
  {
    if a != b && b != c && a != "" && b != "" && c != "" && Last(a) == Last(b) == Last(c) {
      UpToTransitive(Front(a), Front(b), Front(c));
      SameEnds(a, c);
    }
  }

  lemma {:induction false} UpToTotal(a: string, b: string)
    ensures UpTo(a, b) || Less(b, a)
  {
    if a != "" && b != "" && Last(a) == Last(b) {
      UpToTotal(Front(a), Front(b));
      SameEnds(a, b);
    }
  }

  lemma {:induction false} SlashesSymmetric(a: string, b: string)
    ensures Slashes(a, b) == Slashes(b, a)
  {
    if a != "" && b != "" && Last(a) == Last(b) {
      SlashesSymmetric(Front(a), Front(b));
    }
  }

  /** What lies between two paths in reversed order shares at least their common suffix. */
  lemma {:induction false} BetweenSharesMore(a: string, b: string, c: string)
    requires UpTo(a, b) && UpTo(b, c)
    ensures Slashes(a, c) <= Slashes(a, b) && Slashes(a, c) <= Slashes(b, c)
  {
    if a != "" && c != "" && Last(a) == Last(c) {
      if a == b || b == c {
        SelfShares(b, if a == b then c else a);
      } else {
        assert b != "" && Last(b) == Last(a);
        SameEnds(a, b);
        SameEnds(b, c);
        BetweenSharesMore(Front(a), Front(b), Front(c));
      }
    }
  }

  lemma {:induction false} SelfShares(a: string, b: string)
    ensures Slashes(a, b) <= Slashes(a, a) && Slashes(b, a) <= Slashes(a, a)
  {
    if a != "" && b != "" && Last(a) == Last(b) {
      SelfShares(Front(a), Front(b));
    }
  }

  /** `n` is the most slashes in a suffix that path `k` shares with a path that is not the same. */
  ghost predicate IsLevel(paths: seq<string>, k: nat, n: nat)
    requires k < |paths|
  {
    (forall j, m: nat | 0 <= j < |paths| && paths[j] != paths[k] && Shares(paths[k], paths[j], m) :: m <= n) &&
    (n == 0 || exists j :: 0 <= j < |paths| && paths[j] != paths[k] && Shares(paths[k], paths[j], n))
  }

  ghost predicate Sorted(paths: seq<string>, v: seq<nat>) {
    (forall m | 0 <= m < |v| :: v[m] < |paths|) &&
    forall m, n | 0 <= m < n < |v| :: UpTo(paths[v[m]], paths[v[n]])
  }

  /** `v` lists all indices, by the reversed order of their paths. */
  ghost predicate Ordered(paths: seq<string>, v: seq<nat>) {
    Sorted(paths, v) && |v| == |paths| && forall x: nat | x < |paths| :: x in v
  }

  /** `count_slashes` */
  method CountSlashes(s1: string, s2: string) returns (n: nat)
    ensures exists s :: LongestCommonSuffix(s1, s2, s) && n == multiset(s)['/']
    ensures n == Slashes(s1, s2)
  {
    var i, j := |s1|, |s2|;
    n := 0;
    ghost var s := LongestHasSlashes(s1, s2);
    assert s1[..i] == s1 && s2[..j] == s2;
    while i > 0 && j > 0 && s1[i - 1] == s2[j - 1]
      invariant 0 <= i <= |s1| && 0 <= j <= |s2|
      invariant Slashes(s1, s2) == n + Slashes(s1[..i], s2[..j])
    {
      assert Front(s1[..i]) == s1[..i - 1] && Front(s2[..j]) == s2[..j - 1];
      if s1[i - 1] == '/' {
        n := n + 1;
      }
      i, j := i - 1, j - 1;
    }
  }

  /** The comparison that is given to `std::sort`. */
  method Before(s1: string, s2: string) returns (less: bool)
    ensures less == Less(s1, s2)
  {
    var i, j := |s1|, |s2|;
    assert s1[..i] == s1 && s2[..j] == s2;
    while i > 0 && j > 0
      invariant 0 <= i <= |s1| && 0 <= j <= |s2|
      invariant Less(s1, s2) == Less(s1[..i], s2[..j])
    {
      assert Front(s1[..i]) == s1[..i - 1] && Front(s2[..j]) == s2[..j - 1];
      if s1[i - 1] < s2[j - 1] {
        return true;
      } else if s1[i - 1] != s2[j - 1] {
        return false;
      }
      i, j := i - 1, j - 1;
    }
    return i == 0 && j > 0;
  }

  /** Stands for `std::sort`: any way to put the indices in order will do. */
  method Sort(paths: seq<string>) returns (v: seq<nat>)
    ensures Ordered(paths, v)
  {
    v := [];
    for k := 0 to |paths|
      invariant Sorted(paths, v) && |v| == k && forall x: nat :: x in v <==> x < k
    {
      var at := 0;
      while at < |v|
        invariant 0 <= at <= |v| && forall m | 0 <= m < at :: UpTo(paths[v[m]], paths[k])
      {
        var less := Before(paths[k], paths[v[at]]);
        if less {
          break;
        }
        UpToTotal(paths[v[at]], paths[k]);
        at := at + 1;
      }
      v := Inserted(paths, v, at, k);
    }
  }

  method Inserted(paths: seq<string>, v: seq<nat>, at: nat, k: nat) returns (w: seq<nat>)
    requires Sorted(paths, v) && at <= |v| && k < |paths|
    requires forall m | 0 <= m < at :: UpTo(paths[v[m]], paths[k])
    requires at < |v| ==> UpTo(paths[k], paths[v[at]])
    ensures Sorted(paths, w) && |w| == |v| + 1 && forall x: nat :: x in w <==> x in v || x == k
  {
    w := v[..at] + [k] + v[at..];
    forall m, n | 0 <= m < n < |w| ensures UpTo(paths[w[m]], paths[w[n]]) {
      if m == at {
        UpToTransitive(paths[k], paths[v[at]], paths[w[n]]);
      }
    }
    assert v == v[..at] + v[at..];
  }

  /** For all paths that are the same as `current`, from `i` up to `j`, the neighbours decide. */
  lemma NeighboursDecide(paths: seq<string>, v: seq<nat>, i: nat, j: nat, k: nat, above: nat, below: nat)
    requires Ordered(paths, v) && i < j <= |v| && k < |paths|
    requires forall m | i <= m < j :: paths[v[m]] == paths[k]
    requires i > 0 ==> paths[v[i - 1]] != paths[k]
    requires j < |v| ==> paths[v[j]] != paths[k]
    requires above == if i > 0 then Slashes(paths[k], paths[v[i - 1]]) else 0
    requires below == if j < |v| then Slashes(paths[k], paths[v[j]]) else 0
    ensures IsLevel(paths, k, if above < below then below else above)
  {
    hide Slashes, Shares;
    forall x | 0 <= x < |paths| {
      SharesSlashes(paths[k], paths[x]);
    }
    forall x | 0 <= x < |paths| && paths[x] != paths[k]
      ensures Slashes(paths[k], paths[x]) <= if above < below then below else above
    {
      assert x in v;
      var m :| 0 <= m < |v| && v[m] == x;
      SharedWithNeighbour(paths, v, i, j, k, m);
    }
  }

  lemma SharedWithNeighbour(paths: seq<string>, v: seq<nat>, i: nat, j: nat, k: nat, m: nat)
    requires Ordered(paths, v) && i < j <= |v| && k < |paths| && m < |v| && !(i <= m < j)
    requires forall n | i <= n < j :: paths[v[n]] == paths[k]
    ensures m < i ==> Slashes(paths[k], paths[v[m]]) <= Slashes(paths[k], paths[v[i - 1]])
    ensures j <= m ==> Slashes(paths[k], paths[v[m]]) <= Slashes(paths[k], paths[v[j]])
  {
    assert paths[v[i]] == paths[k];
    if m < i {
      BetweenSharesMore(paths[v[m]], paths[v[i - 1]], paths[v[i]]);
      SlashesSymmetric(paths[k], paths[v[m]]);
      SlashesSymmetric(paths[k], paths[v[i - 1]]);
    } else {
      BetweenSharesMore(paths[v[j - 1]], paths[v[j]], paths[v[m]]);
    }
  }

  method Levels(paths: seq<string>) returns (levels: seq<nat>)
    ensures |levels| == |paths| && forall k | 0 <= k < |paths| :: IsLevel(paths, k, levels[k])
  {
    hide Slashes, IsLevel, Shares, LongestCommonSuffix;
    var v := Sort(paths);
    levels := seq(|paths|, _ => 0);
    var i := 0;
    while i < |v|
      invariant 0 <= i <= |v| && |levels| == |paths|
      invariant 0 < i < |v| ==> paths[v[i - 1]] != paths[v[i]]
      invariant forall m | 0 <= m < i :: v[m] < |paths| && IsLevel(paths, v[m], levels[v[m]])
    {
      var current := paths[v[i]];
      var above, below := 0, 0;
      if i != 0 {
        above := CountSlashes(current, paths[v[i - 1]]);
      }
      var j := i;
      while j < |v| && current == paths[v[j]]
        invariant i <= j <= |v| && forall m | i <= m < j :: v[m] < |paths| && paths[v[m]] == current
      {
        j := j + 1;
      }
      if j < |v| {
        below := CountSlashes(current, paths[v[j]]);
      }
      NeighboursDecide(paths, v, i, j, v[i], above, below);
      ghost var first := i;
      while i < j
        invariant first <= i <= j && |levels| == |paths|
        invariant forall m | 0 <= m < i :: v[m] < |paths| && IsLevel(paths, v[m], levels[v[m]])
      {
        assert paths[v[i]] == current;
        SamePathSameLevel(paths, v[first], v[i], if above < below then below else above);
        levels := levels[v[i] := if above < below then below else above];
        i := i + 1;
      }
    }
    forall k | 0 <= k < |paths| ensures IsLevel(paths, k, levels[k]) {
      assert k in v;
    }
  }

  // ---- what levels are for ---------------------------------------------------------------------

  /** The name of a path and the names of `n` parents, or of all there are. */
  function Shown(s: string, n: nat): seq<string> {
    Ending(Parts(s), n + 1)
  }

  /** The last `n` components, or all there are. */
  function Ending(p: seq<string>, n: nat): seq<string> {
    if |p| <= n then p else p[|p| - n..]
  }

  /** Begins with a slash and has no two slashes in a row. */
  predicate Rooted(s: string) {
    var p := Parts(s);
    |p| > 1 && p[0] == "" && forall i | 0 < i < |p| - 1 :: p[i] != ""
  }

  /** A longest common suffix with `m` slashes holds `m` whole components, and not one more, unless one of the texts
      has no more. */
  lemma SharedParts(a: string, b: string, m: nat)
    requires Shares(a, b, m)
    ensures var p, q := Parts(a), Parts(b);
            m < |p| && m < |q| && p[|p| - m..] == q[|q| - m..] &&
            (p[|p| - m - 1] == q[|q| - m - 1] ==> |p| == m + 1 || |q| == m + 1)
  {
    hide Parts, LongestCommonSuffix;
    var s :| LongestCommonSuffix(a, b, s) && multiset(s)['/'] == m;
    var u, w := BeforeSuffix(a, b, s);
    DifferBefore(u, w, s);
  }

  lemma BeforeSuffix(a: string, b: string, s: string) returns (u: string, w: string)
    requires LongestCommonSuffix(a, b, s)
    ensures a == u + s && b == w + s && (u != "" && w != "" ==> Last(u) != Last(w))
  {
    u, w := a[..|a| - |s|], b[..|b| - |s|];
  }

  lemma DifferBefore(u: string, w: string, s: string)
    requires u != "" && w != "" ==> Last(u) != Last(w)
    ensures var p, q, m := Parts(u + s), Parts(w + s), multiset(s)['/'];
            m < |p| && m < |q| && p[|p| - m..] == q[|q| - m..] &&
            (p[|p| - m - 1] == q[|q| - m - 1] ==> |p| == m + 1 || |q| == m + 1)
  {
    hide Parts;
    CountOfParts(s);
    SuffixParts(u, s);
    SuffixParts(w, s);
    LastComponent(u);
    LastComponent(w);
    SameBehind(Last(Parts(u)), Last(Parts(w)), Parts(s)[0]);
  }

  lemma SuffixParts(u: string, s: string)
    ensures var p, t := Parts(u + s), Parts(s);
            |p| == |Parts(u)| - 1 + |t| && p[|p| - |t| + 1..] == t[1..] && p[|p| - |t|] == Last(Parts(u)) + t[0]
    ensures u == "" ==> |Parts(u)| == 1
  {
    PartsOfAppended(u, s);
  }

  lemma SameBehind(x: string, y: string, z: string)
    ensures x + z == y + z ==> x == y
  {
    assert (x + z)[..|x + z| - |z|] == x && (y + z)[..|y + z| - |z|] == y;
  }

  /** The components shown tell a path from another exactly if at least as many parents are shown as there are
      slashes in the longest common suffix. */
  lemma ToldApart(a: string, b: string, m: nat, l: nat)
    requires Shares(a, b, m) && a != b && Rooted(a) && Rooted(b)
    ensures Shown(a, l) != Shown(b, l) <==> m <= l
  {
    hide Shares, Parts, Join, Ending;
    SharedParts(a, b, m);
    JoinOfParts(a);
    JoinOfParts(b);
    EndsDiffer(Parts(a), Parts(b), m, l);
  }

  lemma EndsDiffer(p: seq<string>, q: seq<string>, m: nat, l: nat)
    requires m < |p| && m < |q| && p[|p| - m..] == q[|q| - m..] && p != q
    requires p[|p| - m - 1] == q[|q| - m - 1] ==> |p| == m + 1 || |q| == m + 1
    requires |p| > 1 && p[0] == "" && forall i | 0 < i < |p| - 1 :: p[i] != ""
    requires |q| > 1 && q[0] == "" && forall i | 0 < i < |q| - 1 :: q[i] != ""
    ensures Ending(p, l + 1) != Ending(q, l + 1) <==> m <= l
  {
    var x, y := Ending(p, l + 1), Ending(q, l + 1);
    if m <= l {
      assert x[|x| - m - 1] == p[|p| - m - 1] && y[|y| - m - 1] == q[|q| - m - 1];
      if p[|p| - m - 1] == q[|q| - m - 1] {
        assert |p| == m + 1 ==> |q| - m - 1 == 0;
        assert |q| == m + 1 ==> |p| - m - 1 == 0;
        assert p == x && q == y;
      }
    } else {
      assert x == p[|p| - m..][m - l - 1..] && y == q[|q| - m..][m - l - 1..];
    }
  }

  /** A level is what it is asked for: with that many parents or more shown, a path is told from all others, and with
      fewer it is not. */
  lemma LevelTellsApart(paths: seq<string>, k: nat, n: nat, l: nat)
    requires k < |paths| && IsLevel(paths, k, n) && forall j | 0 <= j < |paths| :: Rooted(paths[j])
    ensures (forall j | 0 <= j < |paths| &&
            paths[j] != paths[k] :: Shown(paths[k], l) != Shown(paths[j], l)) <==> n <= l
  {
    hide Shown, Rooted, Shares, Slashes;
    forall j | 0 <= j < |paths| && paths[j] != paths[k]
      ensures Shown(paths[k], l) != Shown(paths[j], l) <==> Slashes(paths[k], paths[j]) <= l
      ensures Shares(paths[k], paths[j], Slashes(paths[k], paths[j]))
    {
      SharesSlashes(paths[k], paths[j]);
      ToldApart(paths[k], paths[j], Slashes(paths[k], paths[j]), l);
    }
    if l < n {
      var j :| 0 <= j < |paths| && paths[j] != paths[k] && Shares(paths[k], paths[j], n);
      SharesSlashes(paths[k], paths[j]);
    }
  }

  lemma SamePathSameLevel(paths: seq<string>, k: nat, l: nat, n: nat)
    requires k < |paths| && l < |paths| && paths[k] == paths[l] && IsLevel(paths, k, n)
    ensures IsLevel(paths, l, n)
  {
  }
}
