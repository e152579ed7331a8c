/** Plain text search in a stream that arrives in chunks: `regular_find_t` and `find_t`,
    searching forward, white space significant, for a needle that allows some single bytes
    at each of its positions. */
module Searches {

  import opened Wrappers
  import opened Seqs
  import opened Utf8

  type Needle = seq<seq<byte>>

  /** Every position allows at least one byte. */
  predicate Proper(needle: Needle) {
    forall i | 0 <= i < |needle| :: needle[i] != []
  }

  // ---- what is to be found ----------------------------------------------------------------

  predicate OccursAt(needle: Needle, text: seq<byte>, i: int) {
    0 <= i && i + |needle| <= |text| && forall k | 0 <= k < |needle| :: text[i + k] in needle[k]
  }

  /** No occurrence begins in [from, to). */
  ghost predicate Free(needle: Needle, text: seq<byte>, from: int, to: int) {
    forall i | from <= i < to :: !OccursAt(needle, text, i)
  }

  /** Where match `j` may begin: behind the one before it. */
  function EndBefore(found: seq<(int, int)>, j: nat): int
    requires j <= |found|
  {
    if j == 0 then 0 else found[j - 1].1
  }

  ghost predicate NextMatch(needle: Needle, text: seq<byte>, found: seq<(int, int)>, j: nat)
    requires j < |found|
  {
    EndBefore(found, j) <= found[j].0 && found[j].1 == found[j].0 + |needle| &&
    OccursAt(needle, text, found[j].0) && Free(needle, text, EndBefore(found, j), found[j].0)
  }

  /** `found` lists the leftmost occurrences that do not overlap; an empty needle has none. */
  ghost predicate Leftmost(needle: Needle, text: seq<byte>, found: seq<(int, int)>) {
    if needle == [] then found == []
    else (forall j {:trigger found[j]} | 0 <= j < |found| :: NextMatch(needle, text, found, j)) &&
         Free(needle, text, EndBefore(found, |found|), |text|)
  }

  lemma OneNext(needle: Needle, text: seq<byte>, a: seq<(int, int)>, b: seq<(int, int)>, j: nat)
    requires j < |a| && j < |b| && a[..j] == b[..j]
    requires NextMatch(needle, text, a, j) && NextMatch(needle, text, b, j)
    ensures a[..j + 1] == b[..j + 1]
  {
    hide OccursAt;
    assert j > 0 ==> a[j - 1] == a[..j][j - 1] == b[..j][j - 1] == b[j - 1];
    assert a[j].0 == b[j].0 && a[j].1 == b[j].1;
    assert a[..j + 1] == a[..j] + [a[j]] && b[..j + 1] == b[..j] + [b[j]];
  }

  lemma {:induction false} SamePrefix(needle: Needle, text: seq<byte>, a: seq<(int, int)>, b: seq<(int, int)>, n: nat)
    requires needle != [] && Leftmost(needle, text, a) && Leftmost(needle, text, b) && n <= |a| && n <= |b|
    ensures a[..n] == b[..n]
  {
    hide NextMatch, Free;
    if n > 0 {
      SamePrefix(needle, text, a, b, n - 1);
      assert a[n - 1].0 == a[n - 1].0 && b[n - 1].0 == b[n - 1].0;
      OneNext(needle, text, a, b, n - 1);
    }
  }

  /** Behind the last match of one list no other list can have one. */
  lemma NoMatchBehind(needle: Needle, text: seq<byte>, found: seq<(int, int)>, from: int, j: nat)
    requires needle != [] && j < |found| && NextMatch(needle, text, found, j) && from == EndBefore(found, j)
    ensures !Free(needle, text, from, |text|)
  {
    assert OccursAt(needle, text, found[j].0);
  }

  lemma NotLonger(needle: Needle, text: seq<byte>, a: seq<(int, int)>, b: seq<(int, int)>)
    requires needle != [] && Leftmost(needle, text, a) && Leftmost(needle, text, b)
    ensures |b| <= |a|
  {
    hide NextMatch, Free;
    if |a| < |b| {
      SamePrefix(needle, text, a, b, |a|);
      var j := |a|;
      assert j > 0 ==> a[j - 1] == b[..j][j - 1] == b[j - 1];
      assert b[j].0 == b[j].0;
      NoMatchBehind(needle, text, b, EndBefore(a, j), j);
      assert false;
    }
  }

  /** There is only one such list, so it cannot depend on how the text was cut into chunks. */
  lemma LeftmostUnique(needle: Needle, text: seq<byte>, a: seq<(int, int)>, b: seq<(int, int)>)
    requires Leftmost(needle, text, a) && Leftmost(needle, text, b)
    ensures a == b
  {
    if needle != [] {
      NotLonger(needle, text, a, b);
      NotLonger(needle, text, b, a);
      SamePrefix(needle, text, a, b, |a|);
      assert a == a[..|a|] && b == b[..|a|];
    }
  }

  // ---- how far the needle has been matched ------------------------------------------------

  /** The last `k` bytes of `seen` match the first `k` positions of the needle. */
  predicate Matched(needle: Needle, seen: seq<byte>, k: nat) {
    k <= |needle| && k <= |seen| && forall p | |seen| - k <= p < |seen| :: seen[p] in needle[p - (|seen| - k)]
  }

  /** `k` is the longest match, and not a whole occurrence. */
  ghost predicate Longest(needle: Needle, seen: seq<byte>, k: nat) {
    Matched(needle, seen, k) && (k == |needle| ==> needle == []) && forall m | k < m :: !Matched(needle, seen, m)
  }

  /** No longer match than `k` can be continued by `next`; without a next byte there is none. */
  ghost predicate Refuted(needle: Needle, seen: seq<byte>, k: nat, rest: seq<byte>) {
    forall m | k < m && Matched(needle, seen, m) :: m < |needle| && rest != [] && rest[0] !in needle[m]
  }

  lemma MatchedShorter(needle: Needle, seen: seq<byte>, c: byte, m: nat)
    requires m > 0
    ensures Matched(needle, seen + [c], m) <==> m <= |needle| && Matched(needle, seen, m - 1) && c in needle[m - 1]
  {
    var s := seen + [c];
    if m <= |needle| && m <= |s| {
      assert s[|seen|] == c;
      assert forall p | |seen| - (m - 1) <= p < |seen| :: s[p] == seen[p];
    }
  }

  /** The next byte continues the longest match that it does not refute. */
  lemma Advance(needle: Needle, seen: seq<byte>, rest: seq<byte>, k: nat)
    requires rest != [] && k < |needle| && Matched(needle, seen, k) && Refuted(needle, seen, k, rest)
    requires rest[0] in needle[k]
    ensures Matched(needle, seen + [rest[0]], k + 1)
    ensures forall m | k + 1 < m :: !Matched(needle, seen + [rest[0]], m)
  {
    MatchedShorter(needle, seen, rest[0], k + 1);
    forall m | k + 1 < m ensures !Matched(needle, seen + [rest[0]], m) {
      MatchedShorter(needle, seen, rest[0], m);
    }
  }

  /** A byte that even an empty match cannot take leaves an empty match. */
  lemma Skip(needle: Needle, seen: seq<byte>, rest: seq<byte>)
    requires rest != [] && Refuted(needle, seen, 0, rest) && (needle != [] ==> rest[0] !in needle[0])
    ensures Matched(needle, seen + [rest[0]], 0) && forall m | 0 < m :: !Matched(needle, seen + [rest[0]], m)
  {
    forall m | 0 < m ensures !Matched(needle, seen + [rest[0]], m) {
      MatchedShorter(needle, seen, rest[0], m);
    }
  }

  /** Falling back from `k` to the longest match that begins later. */
  lemma FallBack(needle: Needle, seen: seq<byte>, rest: seq<byte>, k: nat, l: nat)
    requires rest != [] && 0 < k < |needle| && Matched(needle, seen, k) && Refuted(needle, seen, k, rest)
    requires rest[0] !in needle[k] && Longest(needle, seen[|seen| - k + 1..], l)
    ensures Matched(needle, seen, l) && Refuted(needle, seen, l, rest)
  {
    Suffix(needle, seen, k, l);
    forall m | l < m && Matched(needle, seen, m) ensures m < |needle| && rest[0] !in needle[m] {
      if m < k {
        Suffix(needle, seen, k, m);
      }
    }
  }

  lemma Suffix(needle: Needle, seen: seq<byte>, k: nat, m: nat)
    requires m < k <= |seen|
    ensures Matched(needle, seen, m) <==> Matched(needle, seen[|seen| - k + 1..], m)
  {
    var tail := seen[|seen| - k + 1..];
    var d := |seen| - k + 1;
    assert forall p | |tail| - m <= p < |tail| :: tail[p] == seen[d + p];
    assert forall p | |seen| - m <= p < |seen| :: seen[p] == tail[p - d];
  }

  lemma EmptyIsLongest(needle: Needle)
    ensures Longest(needle, [], 0)
  {
  }

  lemma MatchedFits(needle: Needle, seen: seq<byte>, k: nat)
    ensures Matched(needle, seen, k) ==> k <= |seen|
  {
  }

  lemma LongestRefutes(needle: Needle, seen: seq<byte>, k: nat, rest: seq<byte>)
    requires Longest(needle, seen, k)
    ensures Refuted(needle, seen, k, rest) && (needle != [] ==> !Matched(needle, seen, |needle|))
  {
  }

  lemma NothingRefuted(needle: Needle, seen: seq<byte>, k: nat)
    requires Matched(needle, seen, k) && Refuted(needle, seen, k, []) && (k == |needle| ==> needle == [])
    ensures Longest(needle, seen, k)
  {
  }

  /** With no longer match there is nothing to refute. */
  lemma NoneLonger(needle: Needle, seen: seq<byte>, k: nat, rest: seq<byte>)
    requires forall m | k < m :: !Matched(needle, seen, m)
    ensures Refuted(needle, seen, k, rest)
  {
  }

  // ---- the automaton -----------------------------------------------------------------------

  datatype DfaNode = DfaNode(byte_: byte, children: seq<DfaNode>)

  /** All bytes of one position lead to the nodes of the next. */
  function Nodes(needle: Needle): seq<DfaNode> {
    if needle == [] then []
        else seq(|needle[0]|, i requires 0 <= i < |needle[0]| => DfaNode(needle[0][i], Nodes(needle[1..])))
  }

  /** Nodes that lead from position `k` on. */
  function NodesFrom(needle: Needle, k: nat): seq<DfaNode>
    requires k <= |needle|
  {
    Nodes(needle[k..])
  }

  lemma NodesAt(needle: Needle, k: nat)
    requires Proper(needle) && k <= |needle|
    ensures NodesFrom(needle, k) == [] <==> k == |needle|
    ensures k < |needle| ==> |NodesFrom(needle, k)| == |needle[k]|
    ensures k < |needle| ==>
              forall i | 0 <= i < |needle[k]| ::
                  NodesFrom(needle, k)[i] == DfaNode(needle[k][i], NodesFrom(needle, k + 1))
  {
    if k < |needle| {
      assert needle[k..][1..] == needle[k + 1..];
    }
  }

  class RegularFind {
    const needle: Needle
    var children: seq<DfaNode>
    var currentNode: seq<DfaNode>
    var matchData: seq<byte>

    ghost predicate Built()
      reads this
    {
      Proper(needle) && children == NodesFrom(needle, 0)
    }

    /** `seen` is what came since the last match; its end has been matched as far as possible. */
    ghost predicate At(seen: seq<byte>)
      reads this
    {
      Built() && |matchData| <= |needle| && currentNode == NodesFrom(needle, |matchData|) && |matchData| <= |seen| &&
      matchData == seen[|seen| - |matchData|..]
    }

    /** Ready for more: with a match found the search starts anew. */
    ghost predicate Ready(seen: seq<byte>)
      reads this
    {
      if currentNode == [] then Built() && seen == []
      else At(seen) && Longest(needle, seen, |matchData|)
    }

    constructor (rows: Needle)
      requires Proper(rows)
      ensures needle == rows && Ready([])
    {
      needle := rows;
      var nodes: seq<DfaNode> := [];
      var k := |rows|;
      while k > 0
        invariant 0 <= k <= |rows| && nodes == NodesFrom(rows, k)
      {
        k := k - 1;
        NodesAt(rows, k);
        var tmp: seq<DfaNode> := [];
        for i := 0 to |rows[k]|
          invariant |tmp| == i && forall j | 0 <= j < i :: tmp[j] == DfaNode(rows[k][j], nodes)
        {
          tmp := tmp + [DfaNode(rows[k][i], nodes)];
        }
        nodes := tmp;
      }
      children := nodes;
      currentNode := nodes;
      matchData := [];
      new;
      NodesAt(rows, 0);
    }

    /** The inner loop over the nodes that may come next. */
    method Descend(c: byte) returns (didMatch: bool)
      requires Built() && |matchData| <= |needle| && currentNode == NodesFrom(needle, |matchData|)
      modifies this`currentNode, this`matchData
      ensures didMatch <==> old(|matchData|) < |needle| && c in needle[old(|matchData|)]
      ensures didMatch ==> matchData == old(matchData) + [c] && currentNode == NodesFrom(needle, |matchData|)
      ensures !didMatch ==> matchData == old(matchData) && currentNode == old(currentNode)
    {
      var k := |matchData|;
      NodesAt(needle, k);
      didMatch := false;
      var i := 0;
      while i < |currentNode|
        invariant currentNode == old(currentNode) && matchData == old(matchData)
        invariant i <= |currentNode| && forall j | 0 <= j < i :: needle[k][j] != c
      {
        if currentNode[i].byte_ == c {
          matchData := matchData + [c];
          currentNode := currentNode[i].children;
          assert c == needle[k][i];
          didMatch := true;
          return;
        }
        i := i + 1;
      }
    }

    /** Between two bytes: no longer match than the one kept can be continued by the rest. */
    ghost predicate Between(seen: seq<byte>, rest: seq<byte>)
      reads this
    {
      At(seen) && (|matchData| == |needle| ==> needle == []) &&
      Matched(needle, seen, |matchData|) && Refuted(needle, seen, |matchData|, rest)
    }

    /** Tries to continue the match with the next byte. */
    method Take(c: byte, ghost seen: seq<byte>, ghost rest: seq<byte>, ghost behind: seq<byte>) returns (didMatch: bool)
      requires Between(seen, rest) && rest != [] && rest[0] == c
      modifies this`currentNode, this`matchData
      ensures !didMatch ==>
                Between(seen, rest) && |matchData| == old(|matchData|) &&
                (needle != [] ==> c !in needle[|matchData|])
      ensures didMatch ==>
                |matchData| == old(|matchData|) + 1 && At(seen + [c]) &&
                Matched(needle, seen + [c], |matchData|)
      ensures didMatch ==> if currentNode == [] then |matchData| == |needle|
                           else Between(seen + [c], behind) && !Matched(needle, seen + [c], |needle|)
    {
      hide Matched, Refuted;
      didMatch := Descend(c);
      if didMatch {
        Advance(needle, seen, rest, |matchData| - 1);
        NodesAt(needle, |matchData|);
        NoneLonger(needle, seen + [c], |matchData|, behind);
      }
    }

    /** A byte does not continue what is matched: what is matched, without its first byte,
        is searched again from the start. */
    method Retry(ghost seen: seq<byte>, ghost rest: seq<byte>)
      requires Between(seen, rest) && rest != [] && 0 < |matchData| < |needle| && rest[0] !in needle[|matchData|]
      modifies this`currentNode, this`matchData
      ensures Between(seen, rest) && |matchData| < old(|matchData|)
      decreases |matchData|, 0
    {
      hide Matched, Refuted;
      NodesAt(needle, 0);
      currentNode := children;
      var tmp := matchData;
      matchData := [];
      EmptyIsLongest(needle);
      if |tmp| > 1 {
        var first, last := Match(tmp[1..], []);
        MatchedFits(needle, [] + tmp[1..][..last], |needle|);
        assert [] + tmp[1..] == tmp[1..];
      }
      assert tmp[1..] == seen[|seen| - |tmp| + 1..];
      FallBack(needle, seen, rest, |tmp|, |matchData|);
    }

    /** The loop of `match`: takes bytes until the needle has been found or there are no more. */
    method Scan(buf: seq<byte>, ghost seen: seq<byte>) returns (first: int, last: int)
      requires Between(seen, buf) && (needle != [] ==> !Matched(needle, seen, |needle|))
      modifies this`currentNode, this`matchData
      ensures first <= last ==>
                0 < last <= |buf| && first == last - |needle| && currentNode == [] && Built() &&
                needle != []
      ensures first <= last ==> |matchData| == |needle| && Matched(needle, seen + buf[..last], |needle|)
      ensures first > last ==> first == |buf| + 1 && last == |buf| && Between(seen + buf, [])
      ensures forall m | 0 <= m < last && needle != [] :: !Matched(needle, seen + buf[..m], |needle|)
      ensures first > last && needle != [] ==> !Matched(needle, seen + buf, |needle|)
      decreases |matchData| + |buf|, 0
    {
      hide Matched, Refuted, NodesFrom, Nodes;
      ghost var start := |matchData|;
      var i := 0;
      assert seen + buf[..0] == seen && buf[0..] == buf;
      while i < |buf|
        invariant 0 <= i <= |buf| && |matchData| <= start + i
        invariant Between(seen + buf[..i], buf[i..])
        invariant forall m | 0 <= m <= i && needle != [] :: !Matched(needle, seen + buf[..m], |needle|)
        decreases |buf| - i, |matchData|
      {
        ghost var now, rest := seen + buf[..i], buf[i..];
        assert seen + buf[..i + 1] == now + [rest[0]] && rest[0] == buf[i];
        var didMatch := Take(buf[i], now, rest, buf[i + 1..]);
        if didMatch && currentNode == [] {
          return i + 1 - |matchData|, i + 1;
        }
        if !didMatch && matchData != [] {
          Retry(now, rest);
        } else {
          if !didMatch {
            Skip(needle, now, rest);
            NoneLonger(needle, now + [rest[0]], 0, buf[i + 1..]);
          }
          assert Between(now + [rest[0]], buf[i + 1..]) &&
                 (needle != [] ==> !Matched(needle, now + [rest[0]], |needle|));
          i := i + 1;
        }
      }
      assert seen + buf[..|buf|] == seen + buf && buf[|buf|..] == [];
      first, last := |buf| + 1, |buf|;
    }

    /** `match`.  `seen` is what was taken since the last match. */
    method Match(buf: seq<byte>, ghost seen: seq<byte>) returns (first: int, last: int)
      requires Ready(seen)
      modifies this`currentNode, this`matchData
      ensures first <= last ==>
                0 < last <= |buf| && first == last - |needle| && needle != [] && Ready([]) &&
                currentNode == []
      ensures first <= last ==> Matched(needle, seen + buf[..last], |needle|)
      ensures first > last ==> first == |buf| + 1 && last == |buf| && Ready(if needle == [] then [] else seen + buf)
      ensures first > last && needle != [] ==> currentNode != []
      ensures forall m | 0 <= m < last && needle != [] :: !Matched(needle, seen + buf[..m], |needle|)
      ensures first > last && needle != [] ==> !Matched(needle, seen + buf, |needle|)
      decreases |matchData| + |buf|, 1
    {
      hide Matched, Refuted;
      NodesAt(needle, 0);
      if currentNode == [] {
        currentNode := children;
        matchData := [];
        EmptyIsLongest(needle);
      }
      LongestRefutes(needle, seen, |matchData|, buf);
      first, last := Scan(buf, seen);
      if first > last {
        NothingRefuted(needle, seen + buf, |matchData|);
        NodesAt(needle, |matchData|);
      }
    }
  }
  // ---- all matches ------------------------------------------------------------------------

  /** More text can only add occurrences, and only at its end. */
  lemma OccursBefore(needle: Needle, text: seq<byte>, more: seq<byte>, i: int)
    ensures OccursAt(needle, text, i) ==> OccursAt(needle, text + more, i)
    ensures OccursAt(needle, text + more, i) && i + |needle| <= |text| ==> OccursAt(needle, text, i)
  {
    assert forall p | 0 <= p < |text| :: (text + more)[p] == text[p];
  }

  /** An occurrence is a whole match of what has been seen up to its end. */
  lemma OccursMatched(needle: Needle, text: seq<byte>, base: nat, i: int, seen: seq<byte>)
    requires base <= i && OccursAt(needle, text, i)
    requires |seen| == i + |needle| - base && forall p | 0 <= p < |seen| :: seen[p] == text[base + p]
    ensures Matched(needle, seen, |needle|)
  {
    forall p | |seen| - |needle| <= p < |seen| ensures seen[p] in needle[p - (|seen| - |needle|)] {
      var k := p - (|seen| - |needle|);
      assert text[i + k] in needle[k] && seen[p] == text[i + k];
    }
  }

  lemma MatchedOccurs(needle: Needle, text: seq<byte>, base: nat, seen: seq<byte>)
    requires base + |seen| == |text| && (forall p | 0 <= p < |seen| :: seen[p] == text[base + p])
    requires Matched(needle, seen, |needle|)
    ensures OccursAt(needle, text, |text| - |needle|)
  {
    forall k | 0 <= k < |needle| ensures text[|text| - |needle| + k] in needle[k] {
      var p := |seen| - |needle| + k;
      assert seen[p] in needle[p - (|seen| - |needle|)];
    }
  }

  /** Where a part of a new chunk has been searched in vain, nothing new occurs. */
  lemma StillFree(needle: Needle, text: seq<byte>, base: nat, chunk: seq<byte>, to: int)
    requires needle != [] && base <= |text| && Free(needle, text, base, |text|)
    requires forall m | 0 <= m <= |chunk| &&
             |text| + m < to + |needle| :: !Matched(needle, text[base..] + chunk[..m], |needle|)
    ensures Free(needle, text + chunk, base, to)
  {
    forall i | base <= i < to ensures !OccursAt(needle, text + chunk, i) {
      OccursBefore(needle, text, chunk, i);
      if OccursAt(needle, text + chunk, i) {
        var m := i + |needle| - |text|;
        assert m > 0;
        OccursMatched(needle, text + chunk, base, i, text[base..] + chunk[..m]);
      }
    }
  }

  /** Found at the end of a chunk and not before, the needle makes the next match. */
  lemma FoundNext(needle: Needle, text: seq<byte>, found: seq<(int, int)>, chunk: seq<byte>)
    requires needle != [] && Free(needle, text, EndBefore(found, |found|), |text|) &&
             0 <= EndBefore(found, |found|) <= |text|
    requires var seen := text[EndBefore(found, |found|)..];
             Matched(needle, seen + chunk, |needle|) &&
                 forall m | 0 <= m < |chunk| :: !Matched(needle, seen + chunk[..m], |needle|)
    ensures var t := text + chunk;
            NextMatch(needle, t, found + [(|t| - |needle|, |t|)], |found|)
  {
    hide Matched, OccursAt;
    var t, base := text + chunk, EndBefore(found, |found|);
    var seen, all := text[base..] + chunk, found + [(|t| - |needle|, |t|)];
    assert EndBefore(all, |found|) == base;
    MatchedOccurs(needle, t, base, seen);
    StillFree(needle, text, base, chunk, |t| - |needle|);
    MatchedFits(needle, seen, |needle|);
  }

  /** What a chunk adds when the needle is found at its end. */
  lemma Found(needle: Needle, text: seq<byte>, found: seq<(int, int)>, chunk: seq<byte>)
    requires needle != [] && Leftmost(needle, text, found) && 0 <= EndBefore(found, |found|) <= |text|
    requires var seen := text[EndBefore(found, |found|)..];
             Matched(needle, seen + chunk, |needle|) &&
                 forall m | 0 <= m < |chunk| :: !Matched(needle, seen + chunk[..m], |needle|)
    ensures var t := text + chunk;
            Leftmost(needle, t, found + [(|t| - |needle|, |t|)])
  {
    hide Matched, OccursAt, NextMatch, Free;
    var t := text + chunk;
    var all := found + [(|t| - |needle|, |t|)];
    FoundNext(needle, text, found, chunk);
    forall j | 0 <= j < |all| ensures NextMatch(needle, t, all, j) {
      if j < |found| {
        assert found[j] == found[j];
        KeptMatch(needle, text, found, chunk, j, all);
      }
    }
    NothingAtEnd(needle, t, |t|);
  }

  lemma NothingAtEnd(needle: Needle, text: seq<byte>, from: int)
    requires needle != [] && |text| <= from
    ensures Free(needle, text, from, |text|)
  {
  }

  lemma KeptMatch(needle: Needle, text: seq<byte>, found: seq<(int, int)>, chunk: seq<byte>, j: nat,
      all: seq<(int, int)>)
    requires j < |found| <= |all| && found == all[..|found|] && NextMatch(needle, text, found, j)
    ensures NextMatch(needle, text + chunk, all, j)
  {
    assert found[j] == all[j] && (j > 0 ==> found[j - 1] == all[j - 1]);
    forall i | EndBefore(all, j) <= i < all[j].0 ensures !OccursAt(needle, text + chunk, i) {
      OccursBefore(needle, text, chunk, i);
    }
    OccursBefore(needle, text, chunk, all[j].0);
  }

  /** What a chunk adds in which the needle is not found. */
  lemma NotFound(needle: Needle, text: seq<byte>, found: seq<(int, int)>, chunk: seq<byte>)
    requires needle != [] && Leftmost(needle, text, found) && 0 <= EndBefore(found, |found|) <= |text|
    requires var seen := text[EndBefore(found, |found|)..];
             forall m | 0 <= m <= |chunk| :: !Matched(needle, seen + chunk[..m], |needle|)
    ensures Leftmost(needle, text + chunk, found)
  {
    hide Matched, OccursAt;
    StillFree(needle, text, EndBefore(found, |found|), chunk, |text + chunk|);
    forall j | 0 <= j < |found| ensures NextMatch(needle, text + chunk, found, j) {
      assert found[j] == found[j];
      KeptMatch(needle, text, found, chunk, j, found);
    }
  }

  /** `find_t` */
  class Finder {
    const pimpl: RegularFind
    var offset: nat
    ghost var input: seq<byte>
    ghost var reported: seq<(int, int)>

    /** All bytes taken since the last match. */
    ghost function Pending(): seq<byte>
      reads this`input, this`reported
    {
      var base := EndBefore(reported, |reported|);
      if pimpl.needle == [] || base < 0 || |input| < base then [] else input[base..]
    }

    /** What has been reported is exactly what there is to find in the input so far. */
    ghost predicate Exact()
      reads this`input, this`reported, pimpl
    {
      0 <= EndBefore(reported, |reported|) <= |input| &&
      Leftmost(pimpl.needle, input, reported) && pimpl.Ready(Pending())
    }

    ghost predicate Valid()
      reads this, pimpl
    {
      offset == |input| && Exact()
    }

    constructor (needle: Needle)
      requires Proper(needle)
      ensures Valid() && pimpl.needle == needle && input == [] && reported == [] && fresh(pimpl)
    {
      pimpl := new RegularFind(needle);
      offset := 0;
      input, reported := [], [];
    }

    /** One call of `match`, and of the callback if there is a match. */
    method MatchOnce(buf: seq<byte>, position: nat) returns (calls: seq<(int, int)>, last: int)
      requires Exact() && buf != [] && position == |input|
      modifies this`input, this`reported, pimpl`currentNode, pimpl`matchData
      ensures Exact() && 0 < last <= |buf|
      ensures input == old(input) + buf[..last] && reported == old(reported) + calls
      ensures |calls| <= 1 && (calls != [] ==> calls[0].1 == |input|)
    {
      hide Leftmost, Matched;
      ghost var text, found, seen := input, reported, Pending();
      var first: int;
      first, last := pimpl.Match(buf, seen);
      ghost var chunk := buf[..last];
      input := text + chunk;
      if first <= last {
        forall m | 0 <= m < |chunk| ensures !Matched(pimpl.needle, seen + chunk[..m], |pimpl.needle|) {
          assert chunk[..m] == buf[..m];
        }
        Found(pimpl.needle, text, found, chunk);
        calls := [(position + first, position + last)];
        reported := found + [(|input| - |pimpl.needle|, |input|)];
        assert Pending() == [];
      } else {
        assert chunk == buf;
        calls := [];
        NotFoundHere(pimpl.needle, text, found, chunk);
        assert Pending() == if pimpl.needle == [] then [] else seen + chunk;
      }
    }

    /** `each_match`.  `calls` is what the callback gets; it asks to stop at the call with index `stopAt`,
        or never.  Up to there the calls are the same, and the rest of the chunk is not looked at. */
    method EachMatch(buf: seq<byte>, moreToCome: bool, stopAt: Option<nat>)
      returns (calls: seq<(int, int)>, stop: bool, ghost taken: nat)
      requires Valid()
      modifies this, pimpl`currentNode, pimpl`matchData
      ensures Exact() && taken <= |buf| && input == old(input) + buf[..taken] && reported == old(reported) + calls
      ensures !stop ==> Valid() && taken == |buf| && (stopAt.Some? ==> |calls| <= stopAt.value)
      ensures stop ==> stopAt.Some? && |calls| == stopAt.value + 1 && calls[|calls| - 1].1 == |input|
      ensures offset == old(offset) + |buf|
    {
      hide Leftmost, Matched, EndBefore, Longest, Refuted, Nodes, NodesFrom, Proper;
      calls, stop, taken := EachCall(buf, stopAt);
      assert buf[..|buf|] == buf;
      offset := offset + |buf|;
      if !moreToCome {
        EndOfInput();
      }
    }

    /** The loop over one chunk. */
    method EachCall(buf: seq<byte>, stopAt: Option<nat>) returns (calls: seq<(int, int)>, stop: bool, ghost taken: nat)
      requires Valid()
      modifies this`input, this`reported, pimpl`currentNode, pimpl`matchData
      ensures Exact() && taken <= |buf| && input == old(input) + buf[..taken] && reported == old(reported) + calls
      ensures !stop ==> taken == |buf| && (stopAt.Some? ==> |calls| <= stopAt.value)
      ensures stop ==> stopAt.Some? && |calls| == stopAt.value + 1 && calls[|calls| - 1].1 == |input|
    {
      hide Leftmost, Matched, EndBefore, Longest, Refuted, Nodes, NodesFrom, Proper;
      ghost var was, before := reported, input;
      calls, stop := [], false;
      var at := 0;
      while at < |buf| && !stop
        invariant 0 <= at <= |buf| && offset == |before| && Exact()
        invariant input == before + buf[..at] && reported == was + calls
        invariant !stop && stopAt.Some? ==> |calls| <= stopAt.value
        invariant stop ==> stopAt.Some? && |calls| == stopAt.value + 1 && calls[|calls| - 1].1 == |input|
        decreases |buf| - at
      {
        var more, last := MatchOnce(buf[at..], offset + at);
        Extended(before, buf, at, last);
        Assoc(was, calls, more);
        if more != [] {
          stop := stopAt == Some(|calls|);
        }
        calls := calls + more;
        at := at + last;
      }
      taken := at;
    }

    /** At the end of the input `match` is asked once more, with no bytes: it finds nothing. */
    method EndOfInput()
      requires Exact()
      modifies pimpl`currentNode, pimpl`matchData
      ensures Exact()
    {
      hide Leftmost, Matched, Nodes;
      var first, last := pimpl.Match([], Pending());
      assert first > last && Pending() + [] == Pending();
    }
  }

  lemma Extended(before: seq<byte>, buf: seq<byte>, at: nat, len: nat)
    requires at + len <= |buf|
    ensures before + buf[..at] + buf[at..][..len] == before + buf[..at + len]
  {
  }

  lemma NotFoundHere(needle: Needle, text: seq<byte>, found: seq<(int, int)>, chunk: seq<byte>)
    requires Leftmost(needle, text, found) && 0 <= EndBefore(found, |found|) <= |text|
    requires needle != [] ==>
               var seen := text[EndBefore(found, |found|)..];
               forall m | 0 <= m <= |chunk| :: !Matched(needle, seen + chunk[..m], |needle|)
    ensures Leftmost(needle, text + chunk, found)
  {
    if needle != [] {
      NotFound(needle, text, found, chunk);
    }
  }
}
