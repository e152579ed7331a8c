/** Paths relative to others, and joining them again. */
module RelativePaths {

  import opened Seqs
  import opened Wrappers
  import opened PathText
  import opened Paths

  /** The components of a path, without the empty one behind a last slash. */
  function Pieces(s: string): seq<string> {
    if Last(Parts(s)) == "" then Front(Parts(s)) else Parts(s)
  }

  lemma {:induction false} PartsOfTail(s: string, x: string)
    requires (s == "" || Last(s) == '/') && forall i | 0 <= i < |x| :: x[i] != '/'
    ensures Last(Parts(s)) == "" && Parts(s + x) == Front(Parts(s)) + [x]
  {
    LastPart(s);
    EndOfSum([], Parts(s));
    if x == "" {
      assert s + x == s;
    } else {
      assert forall i | 0 <= i < |Front(x)| :: Front(x)[i] == x[i];
      PartsOfTail(s, Front(x));
      EndOfSum(s, x);
      var f := Front(Parts(s));
      EndOfSum(f, [Front(x)]);
      assert f + [] == f && Front(x) + [Last(x)] == x;
    }
  }

  lemma NoParts(path: string)
    ensures path[..0] == "" && Parts("") == [""] && Front([""]) == []
  {
  }

  lemma SplitHere(path: string, from: nat, to: nat, res: seq<string>)
    requires from <= to <= |path| && (from == 0 || path[from - 1] == '/') &&
             (forall k | from <= k < to :: path[k] != '/')
    requires res == Front(Parts(path[..from])) && Last(Parts(path[..from])) == ""
    ensures Parts(path[..to]) == res + [path[from..to]]
  {
    hide Parts;
    var s, x := path[..from], path[from..to];
    assert s == "" || Last(s) == path[from - 1];
    PartsOfTail(s, x);
    assert s + x == path[..to];
  }

  /** One more component, up to the next slash or the end. */
  lemma SplitStep(path: string, from: nat, to: nat, res: seq<string>)
    requires from <= to <= |path| && (from == 0 || path[from - 1] == '/') &&
             (forall k | from <= k < to :: path[k] != '/')
    requires res == Front(Parts(path[..from])) && Last(Parts(path[..from])) == ""
    ensures to == |path| ==> Parts(path) == res + [path[from..to]]
    ensures to < |path| && path[to] == '/' ==> Parts(path[..to + 1]) == res + [path[from..to]] + [""]
  {
    hide Parts;
    SplitHere(path, from, to, res);
    if to == |path| {
      assert path[..to] == path;
    } else {
      PartsGrow(path[..to], path[to]);
      assert path[..to + 1] == path[..to] + [path[to]];
    }
  }

  method Split(path: string) returns (res: seq<string>)
    ensures res == Pieces(path)
  {
    hide Parts;
    res := [];
    var from := 0;
    NoParts(path);
    while from < |path|
      invariant 0 <= from <= |path| && (from == 0 || path[from - 1] == '/')
      invariant res == Front(Parts(path[..from])) && Last(Parts(path[..from])) == ""
    {
      var to := from;
      while to < |path| && path[to] != '/'
        invariant from <= to <= |path| && forall k | from <= k < to :: path[k] != '/'
      {
        to := to + 1;
      }
      SplitStep(path, from, to, res);
      res := res + [path[from..to]];
      if to == |path| {
        return;
      }
      EndOfSum(res, [""]);
      assert Front([""]) == [] && res + [] == res;
      from := to + 1;
    }
    assert path[..|path|] == path;
  }

  /** The number of components that two lists begin with alike. */
  function Common(a: seq<string>, b: seq<string>, i: nat := 0): (n: nat)
    requires i <= |a| && i <= |b|
    ensures i <= n <= |a| && n <= |b| && (forall k | i <= k < n :: a[k] == b[k])
    ensures n < |a| && n < |b| ==> a[n] != b[n]
    decreases |a| - i
  {
    if i < |a| && i < |b| && a[i] == b[i] then Common(a, b, i + 1) else i
  }

  /** `join` of components: the root has one empty component. */
  function JoinTop(c: seq<string>): string {
    if c == [""] then "/" else Join(c)
  }

  /** `relative_to` */
  function Relative(p: string, b: string): string
    requires p == "" || b == "" || Absolute(b)
  {
    if b == "" then p
    else if p == "" then b
    else if !Absolute(Normal(p)) then Normal(p)
    else
      var abs, rel := Pieces(Normal(b)), Pieces(Normal(p));
      var i := Common(abs, rel);
      if i == 1 then if b == "/" then Normal(p)[1..] else Normal(p)
      else JoinTop(Ups(|abs| - i) + rel[i..])
  }

  /** Fails where normalising `p` does; the base has to be absolute. */
  method RelativeTo(p: string, b: string) returns (r: Option<string>)
    requires p == "" || b == "" || Absolute(b)
    ensures r == if p != "" && b != "" && Fails(p) then None else Some(Relative(p, b))
  {
    hide Pieces, Normal, JoinTop;
    if b == "" {
      return Some(p);
    } else if p == "" {
      return Some(b);
    }
    var normal := Normalize(p);
    var base' := Normalize(b);
    if normal.None? {
      return None;
    }
    var path, base := normal.value, base'.value;
    if path == "" || path[0] != '/' {
      return Some(path);
    }
    var abs := Split(base);
    var rel := Split(path);
    var i := 0;
    while i < |abs| && i < |rel| && abs[i] == rel[i]
      invariant 0 <= i <= |abs| && i <= |rel| && Common(abs, rel, i) == Common(abs, rel)
    {
      i := i + 1;
    }
    if i == 1 {
      return Some(if b == "/" then path[1..] else path);
    }
    var res: seq<string> := [];
    var j := |abs|;
    while j != i
      invariant i <= j <= |abs| && res == Ups(|abs| - j)
    {
      res := res + [".."];
      j := j - 1;
    }
    r := Some(JoinTop(res + rel[i..]));
  }

  /** `path::join` of two paths */
  function Joined(base: string, path: string): string {
    if Absolute(path) then Normal(path) else Normal(base + "/" + path)
  }

  method JoinPaths(base: string, path: string) returns (r: Option<string>)
    ensures r == if !Absolute(path) && Fails(base + "/" + path) then None else Some(Joined(base, path))
  {
    if path != "" && path[0] == '/' {
      r := Normalize(path);
    } else {
      r := Normalize(base + "/" + path);
    }
  }

  // ---- joining undoes `relative_to` ------------------------------------------------------------

  /** Without "..". */
  predicate Names(c: seq<string>) {
    forall i | 0 <= i < |c| :: c[i] != ".."
  }

  /** How many levels above the root a path leads. */
  function Climbs(c: seq<string>): (n: nat)
    ensures n <= |c|
  {
    if c != [] && c[0] == ".." then 1 + Climbs(c[1..]) else 0
  }

  lemma {:induction false} ClimbsFirst(c: seq<string>)
    ensures forall i | 0 <= i < Climbs(c) :: c[i] == ".."
    ensures Climbs(c) < |c| ==> c[Climbs(c)] != ".."
  {
    if c != [] && c[0] == ".." {
      ClimbsFirst(c[1..]);
      assert forall i | 1 <= i < |c| :: c[i] == c[1..][i - 1];
    }
  }

  lemma {:induction false} ResolvedProper(c: seq<string>)
    requires Proper(c)
    ensures Proper(Resolved(c))
  {
    if c != [] {
      ProperParts(c);
      ResolvedProper(Front(c));
    }
  }

  lemma NormalParts(s: string)
    ensures Proper(Resolved(Clean(s))) && Settled(Resolved(Clean(s)))
  {
    CleanIsProper(s);
    ResolvedProper(Clean(s));
    ResolvedSettles(Clean(s));
  }

  /** A path of given components, taken apart. */
  lemma PiecesOfRooted(c: seq<string>)
    requires Proper(c)
    ensures Pieces("/" + Join(c)) == [""] + c
  {
    PartsOfSum("", Join(c));
    assert "" + "/" + Join(c) == "/" + Join(c);
    if c == [] {
      assert Parts("") == [""] && [""] + [""] == ["", ""] && Front(["", ""]) == [""];
    } else {
      PartsOfJoin(c);
      ProperParts(c);
      EndOfSum([""], c);
    }
  }

  lemma JoinInjective(c: seq<string>, d: seq<string>)
    requires Proper(c) && Proper(d) && "/" + Join(c) == "/" + Join(d)
    ensures c == d
  {
    CleanOfRooted(c);
    CleanOfRooted(d);
  }

  /** Names are cancelled by as many "..". */
  lemma {:induction false} CancelAll(front: seq<string>, names: seq<string>, more: nat)
    requires Names(names)
    ensures Resolved(front + names + Ups(|names| + more)) == Resolved(front + Ups(more))
  {
    if names == [] {
      assert front + names == front;
    } else {
      var f, x := Front(names), Last(names);
      EndOfSum([], names);
      assert forall i | 0 <= i < |f| :: f[i] == names[i];
      assert front + names == front + f + [x];
      Cancelled(front + f, x, |names| + more);
      CancelAll(front, f, more);
    }
  }

  /** Lists alike in the first `k` components, and not in the next. */
  ghost predicate Alike(b: seq<string>, p: seq<string>, k: nat) {
    k <= |b| && k <= |p| && b[..k] == p[..k] && (k == |b| || k == |p| || b[k] != p[k])
  }

  lemma AlikeFits(b: seq<string>, p: seq<string>, k: nat)
    requires Alike(b, p, k)
    ensures k <= |b| && k <= |p| && b[..k] == p[..k]
  {
  }

  lemma DotsBefore(c: seq<string>, n: nat, i: nat)
    requires Settled(c) && n <= i < |c|
    ensures c[i] == ".." ==> c[n] == ".."
  {
  }

  lemma NamesFrom(c: seq<string>, n: nat)
    requires Settled(c) && n <= |c| && (n == |c| || c[n] != "..")
    ensures Names(c[n..])
  {
    forall i | n <= i < |c| ensures c[i] != ".." {
      DotsBefore(c, n, i);
    }
  }

  lemma UpsThenNames(n: nat, names: seq<string>)
    requires Names(names)
    ensures Resolved(Ups(n) + names) == Ups(n) + names
  {
    SettledStays(Ups(n) + names);
  }

  /** Names taken back one by one, some more "..", and what comes then. */
  lemma TakenBack(front: seq<string>, names: seq<string>, more: nat, rest: seq<string>)
    requires Names(names)
    ensures Resolved(front + names + (Ups(|names| + more) + rest)) == Resolved(front + Ups(more) + rest)
  {
    hide Resolved, Ups, Names;
    CancelAll(front, names, more);
    Assoc(front + names, Ups(|names| + more), rest);
    ResolvedOfSum(front + names + Ups(|names| + more), rest);
    ResolvedOfSum(front + Ups(more), rest);
  }

  lemma NamesBehind(b: seq<string>, k: nat)
    requires Settled(b) && Climbs(b) <= k <= |b|
    ensures b == b[..k] + b[k..] && Names(b[k..])
  {
    ClimbsFirst(b);
    if k < |b| {
      DotsBefore(b, Climbs(b), k);
    }
    NamesFrom(b, k);
  }

  /** If all that `b` has of its own are names, they are taken back one by one. */
  lemma Retraced(b: seq<string>, p: seq<string>, k: nat)
    requires Settled(b) && Settled(p) && Alike(b, p, k) && Climbs(b) <= k
    ensures Resolved(b + (Ups(|b| - k) + p[k..])) == p
  {
    hide Resolved, Settled, Ups, Climbs, Names, Alike;
    AlikeFits(b, p, k);
    NamesBehind(b, k);
    SettledStays(p);
    RetracedNames(b[..k], b[k..], p[k..]);
    SplitAt(p, k);
  }

  lemma RetracedNames(front: seq<string>, names: seq<string>, rest: seq<string>)
    requires Names(names)
    ensures Resolved(front + names + (Ups(|names|) + rest)) == Resolved(front + rest)
  {
    hide Resolved, Ups, Names;
    TakenBack(front, names, 0, rest);
    NoUpsLeft(front);
  }

  lemma RetracedUps(b: seq<string>, u: nat, names: seq<string>, k: nat, rest: seq<string>)
    requires b == Ups(u) + names && k < u
    requires Names(names)
    requires Names(rest)
    ensures Resolved(b + (Ups(|b| - k) + rest)) == Ups(2 * u - k) + rest
  {
    hide Resolved, Ups, Names;
    TakenBack(Ups(u), names, u - k, rest);
    assert |b| - k == |names| + (u - k);
    UpsOfSum(u, u - k);
    UpsThenNames(u + (u - k), rest);
  }

  lemma SplitAt(c: seq<string>, k: nat)
    requires k <= |c|
    ensures c[..k] + c[k..] == c
  {
  }

  lemma NoUpsLeft(c: seq<string>)
    ensures c + Ups(0) == c
  {
  }

  lemma UpsOfSum(m: nat, n: nat)
    ensures Ups(m) + Ups(n) == Ups(m + n)
  {
  }

  /** A list that climbs further than another has only ".." in common with it. */
  lemma FarParts(b: seq<string>, p: seq<string>, k: nat) returns (names: seq<string>)
    requires Settled(b) && Settled(p) && Alike(b, p, k) && Climbs(b) > k
    ensures b == Ups(Climbs(b)) + names
    ensures Names(names)
    ensures Names(p[k..])
  {
    ClimbsFirst(b);
    names := b[Climbs(b)..];
    NamesFrom(b, Climbs(b));
    NamesFrom(p, k);
    assert b[..Climbs(b)] == Ups(Climbs(b));
    SplitAt(b, Climbs(b));
  }

  /** If `b` climbs further than `p`, the way back climbs even further. */
  lemma RetracedTooFar(b: seq<string>, p: seq<string>, k: nat)
    requires Settled(b) && Settled(p) && Alike(b, p, k) && Climbs(b) > k
    ensures Resolved(b + (Ups(|b| - k) + p[k..])) == Ups(2 * Climbs(b) - k) + p[k..]
  {
    hide Resolved, Settled, Ups, Alike, Climbs, Names;
    AlikeFits(b, p, k);
    var names := FarParts(b, p, k);
    RetracedUps(b, Climbs(b), names, k, p[k..]);
  }

  /** A normal form is its own. */
  lemma NormalOfRooted(c: seq<string>)
    requires Proper(c) && Settled(c)
    ensures Normal("/" + Join(c)) == "/" + Join(c) && !OnlyDots("/" + Join(c))
  {
    CleanOfRooted(c);
    SettledStays(c);
    if c == [] {
      assert Last(Parts("/")) == "";
    }
  }

  lemma CleanOfJoin(c: seq<string>)
    requires Proper(c)
    ensures Clean(Join(c)) == c
  {
    if c != [] {
      PartsOfJoin(c);
      KeptOfProper(c);
    } else {
      assert Kept([""]) == [];
    }
  }

  /** Components behind a path. */
  lemma NormalBehind(b: string, c: seq<string>)
    requires Absolute(b) && Proper(c)
    ensures Normal(b + "/" + Join(c)) == "/" + Join(Resolved(Resolved(Clean(b)) + c))
  {
    CleanOfSum(b, Join(c));
    CleanOfJoin(c);
    ResolvedOfSum(Clean(b), c);
    PartsOfSum(b, Join(c));
    var s := b + "/" + Join(c);
    assert c == [] ==> Last(Parts(b) + [""]) == "" && Parts(s) == Parts(b) + [""];
    assert s != "." && Absolute(s) && Clean(s) == Clean(b) + c;
    hide Join, Resolved, Clean, Parts, Absolute;
    assert c != [] ==> Clean(s) != [];
    assert !OnlyDots(s);
  }

  lemma NotAbsolute(c: seq<string>)
    requires Proper(c)
    ensures !Absolute(Join(c)) && JoinTop(c) == Join(c)
  {
    assert forall i | 0 <= i < |c| :: Named(c[i]);
    NotRooted(c);
  }

  lemma ProperRest(b: seq<string>, p: seq<string>, k: nat, n: nat)
    requires Proper(p) && k <= |p|
    ensures Proper(Ups(n) + p[k..])
  {
    var c := Ups(n) + p[k..];
    forall i | 0 <= i < |c| ensures Named(c[i]) {
      if i >= n {
        assert c[i] == p[k + (i - n)];
      }
    }
  }

  lemma JoinedIs(b: string, res: seq<string>)
    requires Absolute(b) && Proper(res)
    ensures !Absolute(JoinTop(res)) && Joined(b, JoinTop(res)) == "/" + Join(Resolved(Resolved(Clean(b)) + res))
  {
    hide Absolute, Join, JoinTop, Normal, Proper;
    NotAbsolute(res);
    NormalBehind(b, res);
  }

  /** The case of paths that have more than the root in common. */
  lemma JoinedInside(b: string, bs: seq<string>, ps: seq<string>, k: nat)
    requires Absolute(b) && bs == Resolved(Clean(b)) && Settled(bs) && Proper(bs) && Settled(ps) && Proper(ps)
    requires Alike(bs, ps, k)
    ensures var r := JoinTop(Ups(|bs| - k) + ps[k..]);
            !Absolute(r) && (Joined(b, r) == "/" + Join(ps) <==> Climbs(bs) <= k)
  {
    hide Resolved, Clean, Settled, Proper, Join, JoinTop, Joined, Ups, Climbs, Alike, Absolute, Names;
    AlikeFits(bs, ps, k);
    var res := Ups(|bs| - k) + ps[k..];
    ProperRest(bs, ps, k, |bs| - k);
    JoinedIs(b, res);
    if Climbs(bs) <= k {
      Retraced(bs, ps, k);
    } else {
      RetracedTooFar(bs, ps, k);
      var far := Ups(2 * Climbs(bs) - k) + ps[k..];
      ProperRest(bs, ps, k, 2 * Climbs(bs) - k);
      LongerIsOther(far, ps, k, 2 * Climbs(bs) - k);
    }
  }

  lemma LongerIsOther(far: seq<string>, ps: seq<string>, k: nat, n: nat)
    requires k < n && k <= |ps| && far == Ups(n) + ps[k..] && Proper(far) && Proper(ps)
    ensures "/" + Join(far) != "/" + Join(ps)
  {
    assert |far| > |ps|;
    if "/" + Join(far) == "/" + Join(ps) {
      JoinInjective(far, ps);
      assert false;
    }
  }

  lemma NormalIs(s: string)
    requires Absolute(s)
    ensures OnlyDots(s) ==> Normal(s) == "" && Pieces(Normal(s)) == [] && Climbs(Resolved(Clean(s))) == 0
    ensures !OnlyDots(s) ==> var c := Resolved(Clean(s));
                             Normal(s) == "/" + Join(c) && Absolute(Normal(s)) && Pieces(Normal(s)) == [""] + c &&
                                 Normal(Normal(s)) == Normal(s)
  {
    NormalParts(s);
    if OnlyDots(s) {
      assert Parts("") == [""];
    } else {
      PiecesOfRooted(Resolved(Clean(s)));
      NormalOfRooted(Resolved(Clean(s)));
    }
  }

  /** What two paths have in common behind the root. */
  lemma CommonBehindRoot(bs: seq<string>, ps: seq<string>) returns (k: nat)
    ensures Alike(bs, ps, k) && Common([""] + bs, [""] + ps) == k + 1
    ensures |[""] + bs| - (k + 1) == |bs| - k && ([""] + ps)[k + 1..] == ps[k..]
  {
    var a, p := [""] + bs, [""] + ps;
    var i := Common(a, p);
    assert i > 0 by {
      assert a[0] == p[0];
    }
    k := i - 1;
    assert forall j | 0 <= j < k :: bs[j] == a[j + 1] == p[j + 1] == ps[j];
  }

  /** What `relative_to` gives, by what the paths have in common. */
  lemma RelativeIs(p: string, b: string, bs: seq<string>, ps: seq<string>) returns (k: nat)
    requires Absolute(p) && Absolute(b) && bs == Resolved(Clean(b)) && ps == Resolved(Clean(p))
    requires !OnlyDots(p) && !OnlyDots(b)
    ensures Alike(bs, ps, k) && k <= |bs| && k <= |ps|
    ensures Relative(p, b) == if k > 0 then JoinTop(Ups(|bs| - k) + ps[k..])
            else if b == "/" then ("/" + Join(ps))[1..] else "/" + Join(ps)
  {
    hide Resolved, Clean, Join, JoinTop, Normal, Alike, Ups, Pieces, OnlyDots, Common;
    NormalIs(p);
    NormalIs(b);
    k := CommonBehindRoot(bs, ps);
    AlikeFits(bs, ps, k);
  }

  /** If the base consists of dots alone, the result is the whole path. */
  lemma RelativeToDots(p: string, b: string, ps: seq<string>)
    requires Absolute(p) && Absolute(b) && ps == Resolved(Clean(p)) && !OnlyDots(p) && OnlyDots(b)
    ensures Relative(p, b) == Normal(p)
  {
    hide Resolved, Clean, Join, JoinTop, Normal, Ups, Pieces, OnlyDots, Common;
    NormalIs(p);
    NormalIs(b);
    NormalParts(p);
    NothingTaken([""] + ps);
    WholePath(ps);
  }

  /** Joining `b` with `p` relative to `b` gives the normal form of `p`, if and only if `p` is
      absolute, does not consist of dots alone, and `b` does not climb above the root further
      than `p`, unless `p` does not climb at all. */
  lemma JoinUndoesRelative(p: string, b: string)
    requires p != "" && !Fails(p) && Absolute(b)
    ensures Joined(b, Relative(p, b)) == Normal(p) <==>
            Absolute(p) && !OnlyDots(p) &&
                (Climbs(Resolved(Clean(p))) == 0 || Climbs(Resolved(Clean(b))) <= Climbs(Resolved(Clean(p))))
  {
    hide Resolved, Clean, Settled, Proper, Join, JoinTop, Normal, Climbs, Alike, Names, Ups, OnlyDots, Fails,
         Relative, Absolute, Pieces;
    if Absolute(p) {
      JoinUndoesAbsolute(p, b);
    } else {
      RelativeIsNotUndone(p, b);
    }
  }

  /** A base that climbs further than the path leads somewhere else, and so does a path of dots alone. */
  lemma NotJoinedAgain()
    ensures Joined("/../../b", Relative("/../a", "/../../b")) != Normal("/../a")
    ensures Joined("/b", Relative("/.", "/b")) != Normal("/.")
  {
    hide Joined, Relative, Normal, OnlyDots, Climbs, Resolved, Clean, Join;
    var p, b := ["..", "a"], ["..", "..", "b"];
    JoinSlashed(p);
    JoinSlashed(b);
    JoinSlashed(["..", ".."]);
    JoinOne("..");
    assert Front(b) == ["..", ".."] && Front(p) == Front(["..", ".."]) == [".."];
    assert "/" + Join(p) == "/../a" && "/" + Join(b) == "/../../b";
    ClimbsOf(p, 1);
    ClimbsOf(b, 2);
    DotsAlone();
    JoinUndoesRelative("/../a", "/../../b");
    JoinUndoesRelative("/.", "/b");
  }

  lemma JoinOne(x: string)
    ensures Join([x]) == x
  {
    assert Front([x]) == [] && "" + x == x;
  }

  lemma ClimbsOf(c: seq<string>, n: nat)
    requires Proper(c) && n <= |c| && (forall i | 0 <= i < n :: c[i] == "..") && forall i | n <= i < |c| :: c[i] != ".."
    ensures Resolved(Clean("/" + Join(c))) == c && Climbs(c) == n
  {
    hide Resolved, Clean, Join, Climbs;
    CleanOfRooted(c);
    SettledStays(c);
    ClimbsFirst(c);
    assert n < |c| ==> c[n] != "..";
  }

  lemma RelativeIsNotUndone(p: string, b: string)
    requires p != "" && !Fails(p) && !Absolute(p) && Absolute(b)
    ensures Joined(b, Relative(p, b)) != Normal(p)
  {
    hide Clean, Proper, Settled, OnlyDots, Join, Resolved;
    NotAbsoluteNormal(p);
    NothingBehind(b);
    var r := Normal(p);
    hide Normal;
    NormalIs(b + "/" + r);
  }

  lemma NotAbsoluteNormal(p: string)
    requires !Absolute(p)
    ensures !Absolute(Normal(p))
  {
    hide Clean, Settled, OnlyDots, Join, Resolved;
    NormalParts(p);
    NotAbsolute(Resolved(Clean(p)));
  }

  lemma JoinUndoesAbsolute(p: string, b: string)
    requires Absolute(p) && Absolute(b)
    ensures Joined(b, Relative(p, b)) == Normal(p) <==>
            !OnlyDots(p) && (Climbs(Resolved(Clean(p))) == 0 ||
                Climbs(Resolved(Clean(b))) <= Climbs(Resolved(Clean(p))))
  {
    hide Resolved, Clean, Settled, Proper, Join, JoinTop, Normal, Climbs, Alike, Names, Ups, OnlyDots, Relative,
         Absolute, Pieces;
    var bs, ps := Resolved(Clean(b)), Resolved(Clean(p));
    NormalIs(p);
    NormalIs(b);
    NormalParts(p);
    NormalParts(b);
    if OnlyDots(p) {
      RelativeOfDots(p, b);
      NothingBehind(b);
    } else if OnlyDots(b) {
      RelativeToDots(p, b, ps);
    } else {
      var k := RelativeIs(p, b, bs, ps);
      ClimbsCompared(bs, ps, k);
      if k > 0 {
        JoinedInside(b, bs, ps, k);
      } else if b == "/" {
        RootInFront(ps);
      }
    }
  }

  lemma RelativeOfDots(p: string, b: string)
    requires Absolute(p) && Absolute(b) && OnlyDots(p)
    ensures Relative(p, b) == "" && !Absolute("")
  {
  }

  lemma NothingBehind(b: string)
    requires Absolute(b)
    ensures Joined(b, "") != ""
  {
    NormalBehind(b, []);
    assert Join([]) == "";
  }

  lemma WholePath(ps: seq<string>)
    ensures JoinTop([""] + ps) == "/" + Join(ps)
  {
    if ps != [] {
      assert |[""] + ps| > 1;
      JoinOfSum([""], ps);
      SlashedOne("");
      assert "" + "/" == "/";
    }
  }

  lemma NothingTaken(c: seq<string>)
    ensures Common([], c) == 0 && Ups(0) + c[0..] == c
  {
  }

  /** The components behind the root, joined to the root. */
  lemma RootInFront(ps: seq<string>)
    requires Proper(ps) && Settled(ps)
    ensures Absolute("/") && Joined("/", ("/" + Join(ps))[1..]) == "/" + Join(ps)
  {
    assert ("/" + Join(ps))[1..] == Join(ps);
    NotAbsolute(ps);
    NormalBehind("/", ps);
    assert Clean("/") == [] by {
      assert Parts("/") == ["", ""] && Kept(["", ""]) == [];
    }
    assert Resolved([]) == [] && [] + ps == ps;
    SettledStays(ps);
  }

  /** How far both climb shows in how much they have in common. */
  lemma ClimbsCompared(bs: seq<string>, ps: seq<string>, k: nat)
    requires Alike(bs, ps, k)
    ensures k == 0 ==> Climbs(ps) == 0 || Climbs(bs) <= Climbs(ps)
    ensures k > 0 ==> (Climbs(bs) <= k <==> Climbs(ps) == 0 || Climbs(bs) <= Climbs(ps))
  {
    ClimbsFirst(bs);
    ClimbsFirst(ps);
    assert forall i | 0 <= i < k :: bs[i] == bs[..k][i] == ps[..k][i] == ps[i];
  }
}
