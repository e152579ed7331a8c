/** Normalising paths in the buffer that holds them, and relative paths. */
module Paths {

  import opened Wrappers
  import opened PathText

  // ---- `remove_current_dir` --------------------------------------------------------------

  /** The slash that makes a path absolute. */
  function Head(s: string): string {
    if Absolute(s) then "/" else ""
  }

  /** The path ends in "." and leads nowhere but to where it starts. */
  predicate OnlyDots(s: string) {
    Clean(s) == [] && Last(Parts(s)) == "."
  }

  /** ".//." and the like: two characters are to be cut off the one that is left, the size wraps
      around and `resize` throws. */
  predicate Fails(s: string) {
    OnlyDots(s) && s != "." && !Absolute(s)
  }

  /** An absolute path of dots alone loses even its first slash; "." stays as it is. */
  function CurrentDirRemoved(s: string): string {
    if s == "." then "." else if OnlyDots(s) then "" else Head(s) + Join(Clean(s))
  }

  /** Complete components and the beginning of the next one. */
  function Written(head: string, c: seq<string>, x: string): string {
    head + Slashed(Kept(c)) + x
  }

  /** What the first pass has written when it has read `t`. */
  function Output(t: string): string {
    Written(Head(t), Front(Parts(t)), Last(Parts(t)))
  }

  lemma LastPart(t: string)
    ensures Last(Parts(t)) == "" <==> t == "" || Last(t) == '/'
    ensures Last(Parts(t)) == "." <==> t == "." || (|t| > 1 && t[|t| - 2] == '/' && Last(t) == '.')
  {
    if t != "" && Last(t) != '/' {
      var u := Front(t);
      if u != "" {
        assert u[|u| - 1] == t[|t| - 2];
        LastPart(u);
      }
    }
  }

  /** A slash completes the component before it, unless that is to go. */
  lemma WrittenSlash(h: string, c: seq<string>, x: string)
    ensures Written(h, c, x) == Written(h, c, "") + x
    ensures Written(h, c + [x], "") == if x == "" || x == "." then Written(h, c, "") else Written(h, c, x) + "/"
  {
    EndOfSum(c, [x]);
    assert c + [] == c;
    var k := Kept(c);
    assert h + Slashed(k) + "" == h + Slashed(k);
    if x != "" && x != "." {
      EndOfSum(k, [x]);
      assert k + [] == k;
      assert h + (Slashed(k) + x + "/") + "" == h + Slashed(k) + x + "/";
    }
  }

  lemma PartsGrow(t: string, ch: char)
    ensures Parts(t + [ch]) == if ch == '/' then Parts(t) + [""] else Front(Parts(t)) + [Last(Parts(t)) + [ch]]
  {
    EndOfSum(t, [ch]);
    assert t + [] == t;
  }

  lemma OutputGrows(t: string, ch: char)
    requires t != ""
    ensures var h, c, x := Head(t), Front(Parts(t)), Last(Parts(t));
            Output(t + [ch]) == if ch == '/' then Written(h, c + [x], "") else Written(h, c, x + [ch])
  {
    hide Written;
    var p := Parts(t);
    PartsGrow(t, ch);
    EndOfSum([], p);
    EndOfSum(p, [""]);
    EndOfSum(Front(p), [Last(p) + [ch]]);
    assert p + [] == p && Front(p) + [] == Front(p);
    assert (t + [ch])[0] == t[0];
  }

  /** One step of the first pass. */
  lemma OutputStep(t: string, ch: char)
    requires t != ""
    ensures (t == "." || (|t| > 1 && t[|t| - 2] == '/' && Last(t) == '.')) && ch == '/' ==> Output(t) != ""
    ensures Output(t + [ch]) ==
            if (t == "." || (|t| > 1 && t[|t| - 2] == '/' && Last(t) == '.')) && ch == '/' then Front(Output(t))
            else if Last(t) == '/' && ch == '/' then Output(t)
            else Output(t) + [ch]
  {
    hide Written, Parts, Kept, Slashed, Head;
    var h, c, x := Head(t), Front(Parts(t)), Last(Parts(t));
    LastPart(t);
    OutputGrows(t, ch);
    assert Output(t) == Written(h, c, x);
    WrittenSlash(h, c, x);
    WrittenSlash(h, c, x + [ch]);
    var w := Written(h, c, "");
    hide Output;
    EndOfSum(w, ".");
    assert Front(".") == "" && w + "" == w;
    assert w + (x + [ch]) == w + x + [ch];
  }

  /** What is left of the output at the end. */
  lemma FinalSize(s: string)
    ensures var dst := |Output(s)|;
            var size := if dst > 1 && s != "" && Last(s) == '/' then dst - 1
                        else if |s| > 1 && s[|s| - 2] == '/' && Last(s) == '.' then dst - 2 else dst;
            (size < 0 <==> Fails(s)) && (0 <= size ==> size <= dst && Output(s)[..size] == CurrentDirRemoved(s))
  {
    hide Parts, Kept, Slashed, Join, Output, Clean;
    var h, k, x := FinalParts(s);
    var j := Join(k);
    CutOff(h, j);
    if x == "" {
      assert Output(s) == h + j + (if k == [] then "" else "/");
    } else if x == "." {
      assert Output(s) == h + j + (if k == [] then "." else "/.");
    } else {
      assert CurrentDirRemoved(s) == h + (j + (if k == [] then "" else "/") + x) == Output(s);
    }
  }

  lemma CutOff(h: string, j: string)
    ensures h + j + "" == h + j && (h + j)[..|h + j|] == h + j && (j == "" ==> (h + j)[..|h|] == h)
    ensures (h + j + "/")[..|h + j|] == h + j && (h + j + "/.")[..|h + j|] == h + j
    ensures (h + j + ".")[..|h + j|] == h + j && (h == "/" && j == "" ==> (h + j + ".")[..0] == "")
    ensures forall t, u :: h + j + t + u == h + (j + t + u)
  {
  }

  lemma FinalParts(s: string) returns (h: string, k: seq<string>, x: string)
    ensures h == Head(s) && x == Last(Parts(s))
    ensures Output(s) == h + Join(k) + (if k == [] then "" else "/") + x
    ensures Clean(s) == if x == "" || x == "." then k else k + [x]
    ensures x != "" && x != "." ==> Join(Clean(s)) == Join(k) + (if k == [] then "" else "/") + x
    ensures Join([]) == "" && (s == "." || s == "" ==> k == []) && (k != [] ==> Join(k) != "")
    ensures x == "" <==> s == "" || Last(s) == '/'
    ensures x == "." <==> s == "." || (|s| > 1 && s[|s| - 2] == '/' && Last(s) == '.')
  {
    var p := Parts(s);
    h, x, k := Head(s), Last(p), Kept(Front(p));
    LastPart(s);
    EndOfSum([], p);
    EndOfSum(k, [x]);
    SlashedIsJoin(k);
    CleanIsProper(s);
    assert k != [] ==> Named(Clean(s)[|k| - 1]) && Last(k) == Clean(s)[|k| - 1];
    assert k + [] == k && h + (Join(k) + "") == h + Join(k) + "" && h + (Join(k) + "/") == h + Join(k) + "/";
    if s == "." {
      PartsGrow("", '.');
      assert "" + "." == "." && p == [] + [Last(p)];
    }
  }

  lemma SlashedIsJoin(c: seq<string>)
    ensures Slashed(c) == Join(c) + if c == [] then "" else "/"
  {
  }

  /** One turn of the loop: a character goes, nothing happens, or one is added. */
  lemma FirstPassStep(s: string, src: nat, prev: char, pprev: char, done: string)
    requires src < |s| && done == Output(s[..src])
    requires prev == if src > 0 then s[src - 1] else '\0'
    requires pprev == if src > 1 then s[src - 2] else '\0'
    ensures if (src == 1 || pprev == '/') && prev == '.' && s[src] == '/'
            then done != "" && Output(s[..src + 1]) == done[..|done| - 1]
            else Output(s[..src + 1]) == if src > 0 && prev == '/' && s[src] == '/' then done else done + [s[src]]
  {
    hide Output, Parts, Head, Absolute;
    assert s[..src + 1] == s[..src] + [s[src]];
    OutputStart(s);
    if src > 0 {
      OutputStep(s[..src], s[src]);
    } else {
      assert "" + [s[0]] == [s[0]];
    }
  }

  method RemoveCurrentDir(path: array<char>, size: nat) returns (newSize: Option<nat>)
    requires size <= path.Length
    modifies path
    ensures newSize.None? <==> Fails(old(path[..size]))
    ensures newSize.Some? ==> newSize.value <= size && path[..newSize.value] == CurrentDirRemoved(old(path[..size]))
  {
    hide Output, CurrentDirRemoved, Clean, Fails, OnlyDots, Parts, Head, Absolute;
    ghost var s := path[..size];
    var src, dst := 0, 0;
    var prev, pprev := '\0', '\0';
    OutputStart(s);
    while src < size
      invariant 0 <= dst <= src <= size && path[..dst] == Output(s[..src])
      invariant path[src..size] == s[src..]
      invariant prev == if src > 0 then s[src - 1] else '\0'
      invariant pprev == if src > 1 then s[src - 2] else '\0'
    {
      ghost var done := path[..dst];
      assert path[src] == path[src..size][0] == s[src];
      FirstPassStep(s, src, prev, pprev, done);
      if (src == 1 || pprev == '/') && prev == '.' && path[src] == '/' {
        dst := dst - 1;
      } else if !(src > 0 && prev == '/' && path[src] == '/') {
        if src != dst {
          path[dst] := path[src];
        }
        dst := dst + 1;
      }
      pprev := prev;
      prev := path[src];
      src := src + 1;
    }
    assert s[..src] == s;
    FinalSize(s);
    var left := if dst > 1 && prev == '/' then dst - 1 else if pprev == '/' && prev == '.' then dst - 2 else dst;
    newSize := if left < 0 then None else Some(left);
  }

  lemma OutputStart(s: string)
    ensures Output(s[..0]) == "" && (s != "" ==> Output(s[..1]) == [s[0]])
  {
    assert s[..0] == "" && Parts("") == [""] && Front([""]) == [];
    if s != "" {
      assert s[..1] == [s[0]] && Front([s[0]]) == "";
      PartsGrow("", s[0]);
      assert "" + [s[0]] == [s[0]] && Last([""]) + [s[0]] == [s[0]];
      assert Kept([""]) == [] && Front(["", ""]) == [""] && Front([[s[0]]]) == [];
    }
  }

  // ---- `remove_parent_dir` ---------------------------------------------------------------

  function Reversed(s: string): (r: string)
    ensures |r| == |s|
  {
    seq(|s|, i requires 0 <= i < |s| => s[|s| - 1 - i])
  }

  lemma ReversedSum(s: string, t: string)
    ensures Reversed(s + t) == Reversed(t) + Reversed(s)
  {
  }

  lemma ReversedTwice(s: string)
    ensures Reversed(Reversed(s)) == s
  {
  }

  /** `std::reverse` */
  method ReverseRange(a: array<char>, first: nat, last: nat)
    requires first <= last <= a.Length
    modifies a
    ensures a[first..last] == Reversed(old(a[first..last]))
    ensures a[..first] == old(a[..first]) && a[last..] == old(a[last..])
  {
    hide Reversed;
    var i, j := first, last;
    ghost var was := a[..];
    SlicesOfAll(a, first, last);
    while i < j
      invariant first <= i <= last && i + j == first + last
      invariant forall k | 0 <= k < a.Length && (k < i || j <= k) &&
                first <= k < last :: a[k] == was[first + last - 1 - k]
      invariant forall k | 0 <= k < a.Length && ((i <= k < j) || k < first || last <= k) :: a[k] == was[k]
    {
      a[i], a[j - 1] := a[j - 1], a[i];
      i, j := i + 1, j - 1;
    }
    TurnedRound(was, a[..], first, last);
    SlicesOfAll(a, first, last);
  }

  lemma TurnedRound(was: string, now: string, first: nat, last: nat)
    requires first <= last <= |was| == |now|
    requires forall k | first <= k < last :: now[k] == was[first + last - 1 - k]
    requires forall k | 0 <= k < |was| && !(first <= k < last) :: now[k] == was[k]
    ensures now[first..last] == Reversed(was[first..last]) && now[..first] == was[..first] && now[last..] == was[last..]
  {
    var r := was[first..last];
    forall k | 0 <= k < last - first ensures now[first..last][k] == Reversed(r)[k] {
      assert now[first + k] == was[first + last - 1 - (first + k)];
    }
  }

  lemma SlicesOfAll(a: array<char>, first: nat, last: nat)
    requires first <= last <= a.Length
    ensures a[first..last] == a[..][first..last] && a[..first] == a[..][..first] && a[last..] == a[..][last..]
  {
  }

  /** `std::copy` to a place further to the left. */
  method CopyDown(a: array<char>, from: nat, to: nat, dst: nat) returns (end: nat)
    requires dst <= from <= to <= a.Length
    modifies a
    ensures end == dst + (to - from) <= to && a[dst..end] == old(a[from..to])
    ensures a[..dst] == old(a[..dst]) && a[to..] == old(a[to..])
  {
    ghost var was := a[..];
    for i := 0 to to - from
      invariant forall p | dst <= p < dst + i :: a[p] == was[p + (from - dst)]
      invariant forall p | 0 <= p < a.Length && (p < dst || dst + i <= p) :: a[p] == was[p]
    {
      a[dst + i] := a[from + i];
    }
    forall k | 0 <= k < to - from ensures a[dst..dst + (to - from)][k] == was[from..to][k] {
      assert a[dst + k] == was[dst + k + (from - dst)];
    }
    end := dst + (to - from);
  }

  /** The text of the components that have not been read, of `n` in all. */
  function Rest(c: seq<string>, j: nat): string
    requires j <= |c|
  {
    if j == |c| then Join(c) else Slashed(c[..j])
  }

  /** The text of the components that are kept: the last one has no slash behind it, unless it
      is the last of the path and left out. */
  function Keeping(kept: seq<string>, open: bool): string {
    if open then Slashed(kept) else Join(kept)
  }

  /** How far the second pass has come: with `j` components left, it will skip `skip` names. */
  ghost predicate Reached(c: seq<string>, j: nat, skip: nat, kept: seq<string>) {
    j <= |c| && FromRight(c, 0) == FromRight(c[..j], skip) + kept &&
    (j == |c| ==> kept == [] && skip == 0) && (j < |c| && Last(c) != ".." ==> kept != []) && AllSolid(kept)
  }

  predicate IsParentMetaEntry(s: string) {
    if |s| == 2 then s == ".." else if |s| == 3 then s == "/.." else false
  }

  /** What is read for component `j - 1`, in normal order. */
  function Segment(c: seq<string>, j: nat): string
    requires 0 < j <= |c|
  {
    if j == |c| then c[j - 1] else c[j - 1] + "/"
  }

  lemma RestSplits(c: seq<string>, j: nat)
    requires 0 < j <= |c| && AllSolid(c)
    ensures Rest(c, j) == Slashed(c[..j - 1]) + Segment(c, j) && Rest(c, j - 1) == Slashed(c[..j - 1])
    ensures Reversed(Rest(c, j)) == Reversed(Segment(c, j)) + Reversed(Rest(c, j - 1))
    ensures IsParentMetaEntry(Reversed(Segment(c, j))) <==> c[j - 1] == ".."
  {
    assert Front(c[..j]) == c[..j - 1] && Last(c[..j]) == c[j - 1];
    assert c[..|c|] == c;
    assert Slashed(c[..j - 1]) + c[j - 1] + "/" == Slashed(c[..j - 1]) + (c[j - 1] + "/");
    ReversedSum(Slashed(c[..j - 1]), Segment(c, j));
    MetaEntry(c[j - 1]);
  }

  lemma MetaEntry(x: string)
    requires Solid(x)
    ensures IsParentMetaEntry(Reversed(x)) <==> x == ".."
    ensures IsParentMetaEntry(Reversed(x + "/")) <==> x == ".."
  {
    ReversedTwice(x);
    ReversedTwice(x + "/");
    var r, q := Reversed(x), Reversed(x + "/");
    assert |q| > 0 ==> q[0] == '/';
    if |x| == 2 {
      assert r == [x[1], x[0]] && q == ['/', x[1], x[0]];
      assert x == [x[0], x[1]];
    } else if |x| == 3 {
      assert r[0] == x[2] != '/';
    }
  }

  /** A segment ends where the next slash begins. */
  lemma SegmentShape(c: seq<string>, j: nat)
    requires 0 < j <= |c| && AllSolid(c)
    ensures var r := Reversed(Segment(c, j));
            r != "" && forall k | 1 <= k < |r| :: r[k] != '/'
    ensures var r := Reversed(Rest(c, j - 1));
            j > 1 ==> r != "" && r[0] == '/'
    ensures j == 1 ==> Rest(c, j - 1) == ""
  {
    assert Solid(c[j - 1]);
    RestSplits(c, j);
    if j > 1 {
      assert Last(Slashed(c[..j - 1])) == '/';
    }
  }

  lemma ReachedStep(c: seq<string>, j: nat, skip: nat, kept: seq<string>)
    requires Reached(c, j, skip, kept) && j > 0 && AllSolid(c)
    ensures c[j - 1] == ".." ==> Reached(c, j - 1, skip + 1, kept)
    ensures c[j - 1] != ".." && skip > 0 ==> Reached(c, j - 1, skip - 1, kept)
    ensures c[j - 1] != ".." && skip == 0 ==> Reached(c, j - 1, 0, [c[j - 1]] + kept)
  {
    assert Front(c[..j]) == c[..j - 1] && Last(c[..j]) == c[j - 1];
    var f := FromRight(c[..j - 1], 0);
    assert f + [c[j - 1]] + kept == f + ([c[j - 1]] + kept);
  }

  lemma KeptText(c: seq<string>, j: nat, kept: seq<string>)
    requires Reached(c, j, 0, kept) && j > 0 && c[j - 1] != ".."
    ensures Keeping([c[j - 1]] + kept, Last(c) == "..") == Segment(c, j) + Keeping(kept, Last(c) == "..")
  {
    var x := c[j - 1];
    SlashedOne(x);
    if Last(c) == ".." {
      SlashedOfSum([x], kept);
    } else if j < |c| {
      JoinOfSum([x], kept);
    } else {
      assert [x] + kept == [x] && Join([x]) == "" + x;
    }
  }

  lemma SlashedOne(x: string)
    ensures Slashed([x]) == x + "/"
  {
    assert Front([x]) == [] && "" + x + "/" == x + "/";
  }

  /** Scanning up to the next slash reads exactly one segment. */
  lemma ScanEnds(c: seq<string>, j: nat, n: nat)
    requires 0 < j <= |c| && AllSolid(c)
    requires var r := Reversed(Rest(c, j));
             1 <= n <= |r| && (forall k | 1 <= k < n :: r[k] != '/') && (n == |r| || r[n] == '/')
    ensures n == |Segment(c, j)| >= 1
    ensures Reversed(Rest(c, j))[..n] == Reversed(Segment(c, j)) &&
            Reversed(Rest(c, j))[n..] == Reversed(Rest(c, j - 1))
    ensures |Segment(c, j)| >= (if c[j - 1] != ".." then 1 else if j == |c| then 2 else 3)
    ensures j < |c| ==> n >= 2
  {
    hide Rest, Segment, Reversed;
    RestSplits(c, j);
    SegmentShape(c, j);
    SegmentLength(c, j);
    var r, seg, rest := Reversed(Rest(c, j)), Reversed(Segment(c, j)), Reversed(Rest(c, j - 1));
    var m := |seg|;
    assert forall k | 0 <= k < m :: r[k] == seg[k];
    assert m < |r| ==> r[m] == rest[0];
    assert r[..m] == seg && r[m..] == rest;
  }

  lemma SegmentLength(c: seq<string>, j: nat)
    requires 0 < j <= |c| && AllSolid(c)
    ensures |Segment(c, j)| == |c[j - 1]| + (if j == |c| then 0 else 1) && |c[j - 1]| >= 1
  {
    assert Solid(c[j - 1]);
  }

  lemma RestEmpty(c: seq<string>, j: nat)
    requires j <= |c| && AllSolid(c)
    ensures Rest(c, j) == "" <==> j == 0
  {
    if j > 0 {
      SegmentShape(c, j);
      RestSplits(c, j);
    }
  }

  lemma {:induction false} SlashedUps(k: nat)
    ensures Slashed(Ups(k + 1)) == "../" + Slashed(Ups(k))
  {
    assert Ups(k + 1) == [".."] + Ups(k);
    SlashedOne("..");
    SlashedOfSum([".."], Ups(k));
  }

  /** With all components read, what is written is the resolved path, up to a slash at its end. */
  lemma AllRead(c: seq<string>, skip: nat, kept: seq<string>)
    requires Reached(c, 0, skip, kept) && AllSolid(c)
    ensures var t := Slashed(Ups(skip)) + Keeping(kept, c != [] && Last(c) == "..");
            Join(Resolved(c)) == if t != "" && Last(t) == '/' then Front(t) else t
  {
    var ups, open := Ups(skip), c != [] && Last(c) == "..";
    assert c[..0] == [] && c + Ups(0) == c;
    SameFromRight(c, 0);
    assert Resolved(c) == ups + kept;
    hide FromRight, Resolved, Ups;
    if open || kept == [] {
      SlashedOfSum(ups, kept);
      SlashedIsJoin(ups + kept);
      assert kept == [] ==> Keeping(kept, open) == "";
      EndOfSum(Join(ups + kept), "/");
      assert Front("/") == "" && Join(ups + kept) + "" == Join(ups + kept);
    } else {
      JoinOfSum(ups, kept);
      JoinEndsInName(kept);
      EndOfSum(Slashed(ups), Join(kept));
    }
  }

  lemma JoinEndsInName(c: seq<string>)
    requires AllSolid(c) && c != []
    ensures Join(c) != "" && Last(Join(c)) != '/'
  {
    assert Solid(Last(c));
    EndOfSum(Slashed(Front(c)), Last(c));
  }

  /** The inner loop: over one slash, if there is one, and up to the next. */
  method ScanSegment(path: array<char>, from: nat, last: nat, ghost c: seq<string>, ghost j: nat) returns (src: nat)
    requires from < last <= path.Length && j <= |c| && AllSolid(c) && path[from..last] == Reversed(Rest(c, j))
    ensures 0 < j && from < src <= last && path[from..src] == Reversed(Segment(c, j)) &&
            path[src..last] == Reversed(Rest(c, j - 1))
    ensures src - from == |Segment(c, j)| && (IsParentMetaEntry(path[from..src]) <==> c[j - 1] == "..")
    ensures src - from >= (if c[j - 1] != ".." then if j == |c| then 1 else 2 else if j == |c| then 2 else 3)
  {
    hide Rest, Segment;
    src := from;
    while src != last && (src == from || path[src] != '/')
      invariant from <= src <= last
      invariant forall k | from < k < src :: path[k] != '/'
    {
      src := src + 1;
    }
    RestEmpty(c, j);
    ghost var r := Reversed(Rest(c, j));
    assert forall k | 0 <= k < last - from :: r[k] == path[from..last][k] == path[from + k];
    hide Reversed;
    ScanEnds(c, j, src - from);
    RestSplits(c, j);
    assert path[from..src] == r[..src - from] && path[src..last] == r[src - from..];
  }

  /** The names that could not be skipped become "..". */
  method AppendParents(path: array<char>, dst: nat, toSkip: nat, ghost first: nat, ghost text: string)
      returns (end: nat)
    requires first <= dst && dst + 3 * toSkip <= path.Length && path[first..dst] == Reversed(text)
    modifies path
    ensures end == dst + 3 * toSkip && path[first..end] == Reversed(Slashed(Ups(toSkip)) + text)
    ensures path[..first] == old(path[..first])
  {
    hide Reversed, Slashed;
    end := dst;
    ghost var n := 0;
    var left := toSkip;
    ghost var head := path[..first];
    NoUps(text);
    while left > 0
      invariant 0 <= left <= toSkip && n == toSkip - left && end == dst + 3 * n
      invariant path[first..end] == Reversed(Slashed(Ups(n)) + text) && path[..first] == head
    {
      left := left - 1;
      ghost var was := path[first..end];
      path[end], path[end + 1], path[end + 2] := '/', '.', '.';
      end := end + 3;
      assert path[first..end] == was + "/..";
      OneMoreUp(n, text);
      n := n + 1;
    }
  }

  lemma NoUps(text: string)
    ensures Slashed(Ups(0)) + text == text
  {
    assert "" + text == text;
  }

  lemma OneMoreUp(n: nat, text: string)
    ensures Reversed(Slashed(Ups(n + 1)) + text) == Reversed(Slashed(Ups(n)) + text) + "/.."
  {
    SlashedUps(n);
    assert "../" + Slashed(Ups(n)) + text == "../" + (Slashed(Ups(n)) + text);
    ReversedSum("../", Slashed(Ups(n)) + text);
    assert Reversed("../") == "/..";
  }

  lemma SlicesAfterCopy(a: string, first: nat, to: nat, dst: nat, src: nat, last: nat, was: string, segment: string,
      rest: string)
    requires first <= to <= dst <= src <= last <= |a|
    requires a[..to][first..] == was && a[to..dst] == segment && a[src..][..last - src] == rest
    ensures a[first..dst] == was + segment && a[src..last] == rest
  {
    assert a[first..to] == a[..to][first..] && a[src..last] == a[src..][..last - src];
  }

  /** The loop over the segments. */
  method CopySegments(path: array<char>, first: nat, last: nat, ghost c: seq<string>)
      returns (dst: nat, toSkip: nat, ghost kept: seq<string>)
    requires first <= last <= path.Length && AllSolid(c) && path[first..last] == Reversed(Join(c))
    modifies path
    ensures first <= dst <= last && dst + 3 * toSkip <= last + 1 && Reached(c, 0, toSkip, kept)
    ensures path[first..dst] == Reversed(Keeping(kept, c != [] && Last(c) == "..")) &&
            path[..first] == old(path[..first])
  {
    hide Reversed, Rest, Keeping, Reached, Segment, AllSolid;
    var src := first;
    dst, toSkip := first, 0;
    ghost var j: nat, open := |c|, c != [] && Last(c) == "..";
    kept := [];
    NothingRead(c);
    while src != last
      invariant first <= dst <= src <= last && j <= |c|
      invariant path[src..last] == Reversed(Rest(c, j)) && path[first..dst] == Reversed(Keeping(kept, open))
      invariant path[..first] == old(path[..first])
      invariant Reached(c, j, toSkip, kept)
      invariant dst + 3 * toSkip <= src + if open then 1 else 0
      invariant j == |c| ==> dst == src == first && toSkip == 0
      decreases last - src
    {
      var from := src;
      src := ScanSegment(path, from, last, c, j);
      ReachedStep(c, j, toSkip, kept);
      if IsParentMetaEntry(path[from..src]) {
        toSkip := toSkip + 1;
      } else if toSkip > 0 {
        toSkip := toSkip - 1;
      } else {
        ghost var was, segment, rest, to := path[first..dst], path[from..src], path[src..last], dst;
        KeptText(c, j, kept);
        ReversedSum(Segment(c, j), Keeping(kept, open));
        dst := CopyDown(path, from, src, dst);
        SlicesAfterCopy(path[..], first, to, dst, src, last, was, segment, rest);
        kept := [c[j - 1]] + kept;
      }
      j := j - 1;
    }
    RestEmpty(c, j);
    assert j == 0;
  }

  lemma NothingRead(c: seq<string>)
    requires AllSolid(c)
    ensures Reached(c, |c|, 0, []) && Rest(c, |c|) == Join(c)
    ensures forall open :: Reversed(Keeping([], open)) == ""
  {
    assert c[..|c|] == c;
  }

  /** `remove_parent_dir`, for what the first pass leaves.  The buffer has room for the character
      behind the text. */
  method RemoveParentDir(path: array<char>, size: nat, ghost head: string, ghost c: seq<string>) returns (newSize: nat)
    requires size < path.Length && AllSolid(c) && (head == "" || head == "/") && path[..size] == head + Join(c)
    modifies path
    ensures newSize <= path.Length && path[..newSize] == head + Join(Resolved(c))
  {
    hide Reversed, Keeping, Reached, AllSolid, Resolved, Join, Slashed, Ups;
    var first, last := 0, size;
    NotRooted(c);
    if first != last && path[first] == '/' {
      first := 1;
    }
    HeadOf(path[..size], head, Join(c), first);
    assert path[first..last] == Join(c) && path[..first] == head;
    ReverseRange(path, first, last);
    ghost var kept, open := [], c != [] && Last(c) == "..";
    var dst, toSkip;
    dst, toSkip, kept := CopySegments(path, first, last, c);
    ghost var skip, text := toSkip, Keeping(kept, open);
    dst := AppendParents(path, dst, toSkip, first, text);
    AllRead(c, skip, kept);
    newSize := TurnBack(path, first, dst, Slashed(Ups(skip)) + text);
  }

  lemma HeadOf(s: string, head: string, t: string, first: nat)
    requires s == head + t && !Absolute(t) && (head == "" || head == "/")
    requires first == if s != "" && s[0] == '/' then 1 else 0
    ensures first <= |s| && s[..first] == head && s[first..] == t
  {
  }

  /** No slash comes first in joined components. */
  lemma NotRooted(c: seq<string>)
    requires AllSolid(c)
    ensures !Absolute(Join(c))
  {
    if |c| > 1 {
      assert c == [c[0]] + c[1..] && Solid(c[0]);
      JoinOfSum([c[0]], c[1..]);
      SlashedOne(c[0]);
    } else if |c| == 1 {
      assert Solid(c[0]) && Join(c) == "" + c[0];
    }
  }

  /** Puts the written text in its order again, and drops a slash at its end. */
  method TurnBack(path: array<char>, first: nat, end: nat, ghost t: string) returns (dst: nat)
    requires first <= end <= path.Length && path[first..end] == Reversed(t)
    modifies path
    ensures dst <= path.Length && path[..dst] == old(path[..first]) + if t != "" && Last(t) == '/' then Front(t) else t
  {
    hide Reversed;
    dst := end;
    ReverseRange(path, first, dst);
    ReversedTwice(t);
    ghost var a := path[..dst];
    assert a[..first] == path[..first] && a[first..] == path[first..dst];
    WithAndWithoutLast(a, first, path[..first], t);
    if first != dst && path[dst - 1] == '/' {
      dst := dst - 1;
      assert path[..dst] == a[..dst];
    }
  }

  lemma WithAndWithoutLast(a: string, first: nat, head: string, t: string)
    requires first <= |a| && a[..first] == head && a[first..] == t
    ensures a == head + t && |t| == |a| - first
    ensures t != "" ==> a[|a| - 1] == Last(t) && a[..|a| - 1] == head + Front(t)
  {
  }

  // ---- `normalize` -----------------------------------------------------------------------------

  /** What normalising a path gives, if it does not fail. */
  function Normal(s: string): string {
    if s == "." then "." else if OnlyDots(s) then "" else Head(s) + Join(Resolved(Clean(s)))
  }

  /** Paths of dots alone: relative ones fail, absolute ones lose their slash, and "." stays. */
  lemma DotsAlone()
    ensures Fails("./.") && !Absolute("./.")
    ensures OnlyDots("/.") && !Fails("/.") && Normal("/.") == ""
    ensures OnlyDots(".") && !Fails(".") && Normal(".") == "."
  {
    hide Parts, Kept, Resolved, Join, Slashed;
    PartsOfName("");
    PartsOfName(".");
    PartsOfSum(".", ".");
    PartsOfSum("", ".");
    assert "." + "/" + "." == "./." && "" + "/" + "." == "/.";
    NothingKept(".", ".");
    NothingKept("", ".");
    assert ["."] + ["."] == [".", "."] && [""] + ["."] == ["", "."];
  }

  lemma NothingKept(x: string, y: string)
    requires (x == "" || x == ".") && (y == "" || y == ".")
    ensures Kept([x, y]) == [] && Kept([y]) == []
  {
    assert Front([x, y]) == [x] && Front([x]) == [] && Front([y]) == [];
    assert Kept([x]) == [] && Kept([y]) == [] && Last([x, y]) == y;
  }

  lemma FirstPassLeaves(s: string) returns (head: string, c: seq<string>)
    ensures AllSolid(c) && (head == "" || head == "/")
    ensures CurrentDirRemoved(s) == head + Join(c) && Normal(s) == head + Join(Resolved(c))
  {
    hide Clean, OnlyDots, Resolved, Join;
    CleanIsProper(s);
    DotStays();
    head, c := Head(s), Clean(s);
    if s == "." {
      head, c := "", ["."];
      assert Solid(".") && head + Join(c) == ".";
    } else if OnlyDots(s) {
      head, c := "", [];
      assert head + Join(c) == "";
    } else {
      assert forall i | 0 <= i < |c| :: Named(c[i]);
    }
  }

  lemma DotStays()
    ensures Resolved(["."]) == ["."] && Join(["."]) == "." && "" + "." == "."
    ensures Resolved([]) == [] && Join([]) == ""
  {
    assert Front(["."]) == [] && Resolved([]) == [];
    assert [] + ["."] == ["."];
  }

  method Normalize(path: string) returns (r: Option<string>)
    ensures r == if Fails(path) then None else Some(Normal(path))
  {
    hide Join, Resolved, Clean, AllSolid, Fails, Normal, CurrentDirRemoved;
    var size := |path|;
    var buffer := new char[size + 1];
    for i := 0 to size
      invariant buffer[..i] == path[..i]
    {
      buffer[i] := path[i];
    }
    buffer[size] := '\0';
    assert buffer[..size] == path;
    ghost var head, c := FirstPassLeaves(path);
    var left := RemoveCurrentDir(buffer, size);
    if left.None? {
      return None;
    }
    var n := RemoveParentDir(buffer, left.value, head, c);
    r := Some(buffer[..n]);
  }
}
