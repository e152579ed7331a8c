/** Paths as text and as components, and what normalising them means. */
module PathText {

  predicate Absolute(s: string) {
    s != "" && s[0] == '/'
  }

  function Front<T>(s: seq<T>): seq<T>
    requires s != []
  {
    s[..|s| - 1]
  }

  function Last<T>(s: seq<T>): T
    requires s != []
  {
    s[|s| - 1]
  }

  /** The components of a text: what slashes separate, empty ones included. */
  function Parts(s: string): (p: seq<string>)
    ensures p != []
  {
    if s == "" then [""]
    else if Last(s) == '/' then Parts(Front(s)) + [""]
    else Front(Parts(Front(s))) + [Last(Parts(Front(s))) + [Last(s)]]
  }

  /** Every component with a slash behind it. */
  function Slashed(c: seq<string>): string {
    if c == [] then "" else Slashed(Front(c)) + Last(c) + "/"
  }

  /** `text::join` with slashes. */
  function Join(c: seq<string>): string {
    if c == [] then "" else Slashed(Front(c)) + Last(c)
  }

  /** What a component can be made of: anything but nothing, and no slash. */
  predicate Solid(x: string) {
    x != "" && forall i | 0 <= i < |x| :: x[i] != '/'
  }

  predicate AllSolid(c: seq<string>) {
    forall i | 0 <= i < |c| :: Solid(c[i])
  }

  predicate Named(x: string) {
    Solid(x) && x != "."
  }

  /** Components that are neither empty nor "."; ".." may be among them. */
  predicate Proper(c: seq<string>) {
    forall i | 0 <= i < |c| :: Named(c[i])
  }

  /** Without the components that are empty or ".". */
  function Kept(c: seq<string>): seq<string> {
    if c == [] then []
    else if Last(c) == "" || Last(c) == "." then Kept(Front(c))
    else Kept(Front(c)) + [Last(c)]
  }

  function Clean(s: string): seq<string> {
    Kept(Parts(s))
  }

  /** Components from left to right on a stack: ".." takes the one on top off, if that is a name. */
  function Resolved(c: seq<string>): seq<string> {
    if c == [] then [] else Stepped(Resolved(Front(c)), Last(c))
  }

  function Stepped(stack: seq<string>, x: string): seq<string> {
    if x == ".." && stack != [] && Last(stack) != ".." then Front(stack) else stack + [x]
  }

  function Ups(k: nat): (c: seq<string>)
    ensures |c| == k
  {
    seq(k, i => "..")
  }

  // ---- components and text -----------------------------------------------------------------

  lemma EndOfSum<T>(c: seq<T>, d: seq<T>)
    requires d != []
    ensures Front(c + d) == c + Front(d) && Last(c + d) == Last(d)
    ensures Front(d) + [Last(d)] == d
  {
  }

  lemma ProperParts(c: seq<string>)
    requires Proper(c) && c != []
    ensures Proper(Front(c)) && Named(Last(c))
  {
    assert forall i | 0 <= i < |Front(c)| :: Front(c)[i] == c[i];
  }

  lemma {:induction false} PartsHaveNoSlash(s: string)
    ensures forall i, j | 0 <= i < |Parts(s)| && 0 <= j < |Parts(s)[i]| :: Parts(s)[i][j] != '/'
  {
    if s != "" {
      PartsHaveNoSlash(Front(s));
    }
  }

  lemma {:induction false} KeptIsProper(c: seq<string>)
    requires forall i, j | 0 <= i < |c| && 0 <= j < |c[i]| :: c[i][j] != '/'
    ensures Proper(Kept(c))
  {
    if c != [] {
      assert forall i | 0 <= i < |Front(c)| :: Front(c)[i] == c[i];
      KeptIsProper(Front(c));
    }
  }

  lemma CleanIsProper(s: string)
    ensures Proper(Clean(s))
  {
    PartsHaveNoSlash(s);
    KeptIsProper(Parts(s));
  }

  lemma {:induction false} KeptOfSum(c: seq<string>, d: seq<string>)
    ensures Kept(c + d) == Kept(c) + Kept(d)
  {
    if d == [] {
      assert c + d == c;
    } else {
      KeptOfSum(c, Front(d));
      EndOfSum(c, d);
    }
  }

  lemma {:induction false} KeptOfProper(c: seq<string>)
    requires Proper(c)
    ensures Kept(c) == c
  {
    if c != [] {
      ProperParts(c);
      EndOfSum([], c);
      KeptOfProper(Front(c));
    }
  }

  /** A slash between two texts separates their components. */
  lemma {:induction false} PartsOfSum(s: string, t: string)
    ensures Parts(s + "/" + t) == Parts(s) + Parts(t)
  {
    if t == "" {
      assert s + "/" + t == s + "/";
      EndOfSum(s, "/");
      assert Front("/") == "" && s + "" == s;
    } else {
      PartsOfSum(s, Front(t));
      EndOfSum(s + "/", t);
      PartsStep(Parts(s), Front(t), Last(t));
    }
  }

  lemma PartsStep(before: seq<string>, t: string, ch: char)
    ensures ch == '/' ==> before + Parts(t) + [""] == before + (Parts(t) + [""])
    ensures ch != '/' ==>
              Front(before + Parts(t)) + [Last(before + Parts(t)) + [ch]] ==
                  before + (Front(Parts(t)) + [Last(Parts(t)) + [ch]])
  {
    EndOfSum(before, Parts(t));
  }

  /** More text goes on with the last component. */
  lemma {:induction false} PartsOfAppended(u: string, s: string)
    ensures Parts(u + s) == Front(Parts(u)) + [Last(Parts(u)) + Parts(s)[0]] + Parts(s)[1..]
  {
    var p, x := Front(Parts(u)), Last(Parts(u));
    if s == "" {
      assert u + s == u && x + "" == x && [""][1..] == [];
      EndOfSum([], Parts(u));
    } else {
      var t, ch := Front(s), Last(s);
      PartsOfAppended(u, t);
      EndOfSum(u, s);
      GoesOn(p, x, Parts(t), ch);
    }
  }

  lemma GoesOn(p: seq<string>, x: string, t: seq<string>, ch: char)
    requires t != []
    ensures var before := p + [x + t[0]] + t[1..];
            before + [""] == p + [x + (t + [""])[0]] + (t + [""])[1..]
    ensures var before, after := p + [x + t[0]] + t[1..], Front(t) + [Last(t) + [ch]];
            Front(before) + [Last(before) + [ch]] == p + [x + after[0]] + after[1..]
  {
    if |t| == 1 {
      assert x + (t[0] + [ch]) == x + t[0] + [ch];
    }
  }

  lemma {:induction false} CountOfParts(s: string)
    ensures |Parts(s)| == multiset(s)['/'] + 1
  {
    if s != "" {
      CountOfParts(Front(s));
      EndOfSum([], s);
    }
  }

  /** Joined again, the components of a text are the text. */
  lemma {:induction false} JoinOfParts(s: string)
    ensures Join(Parts(s)) == s
  {
    if s != "" {
      JoinOfParts(Front(s));
      EndOfSum([], s);
      var p := Parts(Front(s));
      if Last(s) == '/' {
        JoinSlashed(p + [""]);
        EndOfSum(p, [""]);
      } else {
        assert Slashed(Front(p)) + (Last(p) + [Last(s)]) == Slashed(Front(p)) + Last(p) + [Last(s)];
      }
    }
  }

  lemma LastComponent(u: string)
    ensures Last(Parts(u)) == "" <==> u == "" || Last(u) == '/'
    ensures Last(Parts(u)) != "" ==> Last(Last(Parts(u))) == Last(u)
  {
  }

  lemma {:induction false} PartsOfName(x: string)
    requires forall i | 0 <= i < |x| :: x[i] != '/'
    ensures Parts(x) == [x]
  {
    if x != "" {
      assert forall i | 0 <= i < |Front(x)| :: Front(x)[i] == x[i];
      PartsOfName(Front(x));
      assert Last(x) != '/';
      assert Front(x) + [Last(x)] == x;
    }
  }

  lemma {:induction false} PartsOfJoin(c: seq<string>)
    requires Proper(c) && c != []
    ensures Parts(Join(c)) == c
  {
    var x := Last(c);
    ProperParts(c);
    EndOfSum([], c);
    PartsOfName(x);
    if |c| == 1 {
      assert Join(c) == x;
    } else {
      PartsOfJoin(Front(c));
      JoinSlashed(c);
      PartsOfSum(Join(Front(c)), x);
    }
  }

  lemma JoinSlashed(c: seq<string>)
    requires |c| > 1
    ensures Join(c) == Join(Front(c)) + "/" + Last(c)
    ensures Slashed(Front(c)) == Join(Front(c)) + "/"
  {
  }

  /** The components of a path with a given list of them. */
  lemma CleanOfRooted(c: seq<string>)
    requires Proper(c)
    ensures Clean("/" + Join(c)) == c
  {
    PartsOfSum("", Join(c));
    assert "" + "/" + Join(c) == "/" + Join(c);
    KeptOfSum([""], Parts(Join(c)));
    assert Kept([""]) == [];
    if c == [] {
      assert Parts("") == [""];
    } else {
      PartsOfJoin(c);
      KeptOfProper(c);
    }
  }

  lemma CleanOfSum(s: string, t: string)
    ensures Clean(s + "/" + t) == Clean(s) + Clean(t)
  {
    PartsOfSum(s, t);
    KeptOfSum(Parts(s), Parts(t));
  }

  lemma {:induction false} SlashedOfSum(c: seq<string>, d: seq<string>)
    ensures Slashed(c + d) == Slashed(c) + Slashed(d)
  {
    if d == [] {
      assert c + d == c;
    } else {
      SlashedOfSum(c, Front(d));
      EndOfSum(c, d);
      assert Slashed(c) + (Slashed(Front(d)) + Last(d) + "/") == Slashed(c) + Slashed(Front(d)) + Last(d) + "/";
    }
  }

  lemma JoinOfSum(c: seq<string>, d: seq<string>)
    requires d != []
    ensures Join(c + d) == Slashed(c) + Join(d)
  {
    EndOfSum(c, d);
    SlashedOfSum(c, Front(d));
    assert Slashed(c) + (Slashed(Front(d)) + Last(d)) == Slashed(c) + Slashed(Front(d)) + Last(d);
  }

  // ---- resolving ".." ---------------------------------------------------------------------

  /** First all "..", then names. */
  predicate Settled(c: seq<string>) {
    forall i, j | 0 <= i < j < |c| && c[j] == ".." :: c[i] == ".."
  }

  lemma {:induction false} ResolvedSettles(c: seq<string>)
    ensures Settled(Resolved(c))
  {
    if c != [] {
      ResolvedSettles(Front(c));
    }
  }

  /** What is resolved stays as it is. */
  lemma {:induction false} SettledStays(c: seq<string>)
    requires Settled(c)
    ensures Resolved(c) == c
  {
    if c != [] {
      EndOfSum([], c);
      assert forall i | 0 <= i < |Front(c)| :: Front(c)[i] == c[i];
      SettledStays(Front(c));
    }
  }

  /** Resolving can start from what has been resolved before. */
  lemma {:induction false} ResolvedOfSum(c: seq<string>, d: seq<string>)
    ensures Resolved(c + d) == Resolved(Resolved(c) + d)
  {
    if d == [] {
      assert c + d == c && Resolved(c) + d == Resolved(c);
      ResolvedSettles(c);
      SettledStays(Resolved(c));
    } else {
      ResolvedOfSum(c, Front(d));
      EndOfSum(c, d);
      EndOfSum(Resolved(c), d);
    }
  }

  lemma ResolvedUps(k: nat)
    ensures Resolved(Ups(k)) == Ups(k)
  {
    SettledStays(Ups(k));
  }

  /** Components from right to left: each ".." counts as one name to skip. */
  function FromRight(c: seq<string>, skip: nat): seq<string> {
    if c == [] then Ups(skip)
    else if Last(c) == ".." then FromRight(Front(c), skip + 1)
    else if skip > 0 then FromRight(Front(c), skip - 1)
    else FromRight(Front(c), 0) + [Last(c)]
  }

  lemma CancelTwo(front: seq<string>, x: string)
    requires x != ".."
    ensures Resolved(front + [x] + [".."]) == Resolved(front)
  {
    var c := front + [x];
    EndOfSum(front, [x]);
    EndOfSum(c, [".."]);
    assert front + [] == front && c + [] == c;
    assert Front(Resolved(front) + [x]) == Resolved(front);
  }

  /** A name and a ".." behind it cancel each other. */
  lemma Cancelled(front: seq<string>, x: string, skip: nat)
    requires x != ".." && skip > 0
    ensures Resolved(front + [x] + Ups(skip)) == Resolved(front + Ups(skip - 1))
  {
    var d := front + [x] + [".."];
    CancelTwo(front, x);
    ResolvedOfSum(d, Ups(skip - 1));
    ResolvedOfSum(front, Ups(skip - 1));
    assert [".."] + Ups(skip - 1) == Ups(skip);
    assert d + Ups(skip - 1) == front + [x] + ([".."] + Ups(skip - 1));
  }

  /** Both directions give the same. */
  lemma {:induction false} SameFromRight(c: seq<string>, skip: nat)
    ensures FromRight(c, skip) == Resolved(c + Ups(skip))
  {
    if c == [] {
      ResolvedUps(skip);
      assert c + Ups(skip) == Ups(skip);
    } else {
      var front, x := Front(c), Last(c);
      EndOfSum([], c);
      if x == ".." {
        SameFromRight(front, skip + 1);
        assert [".."] + Ups(skip) == Ups(skip + 1);
        assert c + Ups(skip) == front + ([".."] + Ups(skip));
      } else if skip > 0 {
        SameFromRight(front, skip - 1);
        Cancelled(front, x, skip);
      } else {
        SameFromRight(front, 0);
        assert c + Ups(0) == c && front + Ups(0) == front;
      }
    }
  }
}
