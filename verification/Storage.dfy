/** `storage_t`: text as a sequence of slices into memory blocks.  A block only ever
    grows at its end, so any number of storages may share it. */
module Storages {

  import opened Seqs
  import opened Utf8

  /** `memory_t::helper_t`: a fixed allocation of which the first `size` bytes are in use. */
  class Block {
    const data: array<byte>
    var size: nat

    ghost predicate Valid()
      reads this
    {
      size <= data.Length
    }

    /** The allocator may hand out more than was asked for: `slack` bytes more. */
    constructor (bytes: seq<byte>, slack: nat)
      ensures fresh(data) && data.Length == |bytes| + 15 + slack
      ensures Valid() && Used() == bytes
    {
      var n := |bytes|;
      data := new byte[n + 15 + slack](_ => 0);
      size := 0;
      new;
      Append(bytes);
    }

    /** The bytes in use. */
    function Used(): seq<byte>
      requires Valid()
      reads this, data
    {
      data[..size]
    }

    function Available(): nat
      requires Valid()
      reads this
    {
      data.Length - size
    }

    method Append(bytes: seq<byte>)
      requires Valid() && |bytes| <= Available()
      modifies this, data
      ensures Valid() && Used() == old(Used()) + bytes
    {
      var i := 0;
      while i < |bytes|
        modifies data
        invariant 0 <= i <= |bytes|
        invariant data[..size + i] == old(data[..size]) + bytes[..i]
      {
        data[size + i] := bytes[i];
        assert data[..size + i + 1] == data[..size + i] + [bytes[i]];
        assert bytes[..i + 1] == bytes[..i] + [bytes[i]];
        i := i + 1;
      }
      assert bytes[..|bytes|] == bytes;
      size := size + |bytes|;
    }
  }

  /** `memory_t`: the bytes of a block from `offset` on. */
  datatype Memory = Memory(helper: Block, offset: nat) {
    function Subset(from: nat): Memory {
      Memory(helper, offset + from)
    }

    function Size(): int
      reads helper
    {
      helper.size - offset
    }

    /** `std::equal` on `size` bytes of two memories. */
    predicate SameBytes(i: nat, rhs: Memory, j: nat, size: nat)
      requires helper.Valid() && rhs.helper.Valid()
      requires i + size <= Size() && j + size <= rhs.Size()
      reads helper, helper.data, rhs.helper, rhs.helper.data
    {
      helper.data[offset + i..offset + i + size] == rhs.helper.data[rhs.offset + j..rhs.offset + j + size]
    }
  }

  /** A tree node: the first `key` bytes of a memory. */
  datatype Piece = Piece(key: nat, value: Memory)

  /** The offset of piece `i`: the sum of the keys before it. */
  function Offset(t: seq<Piece>, i: nat): nat
    requires i <= |t|
  {
    if i == 0 then 0 else Offset(t, i - 1) + t[i - 1].key
  }

  // ---- the text that pieces stand for, given the bytes of the blocks ------------------

  /** The bytes in use of some blocks. */
  type Bytes = map<Block, seq<byte>>

  /** No piece is empty and none reaches behind the bytes in use of its block. */
  ghost predicate Fits(p: Piece, m: Bytes) {
    p.key > 0 && p.value.helper in m && p.value.offset + p.key <= |m[p.value.helper]|
  }

  ghost predicate AllFit(t: seq<Piece>, m: Bytes) {
    forall i | 0 <= i < |t| :: Fits(t[i], m)
  }

  ghost function Slice(p: Piece, m: Bytes): (s: seq<byte>)
    requires Fits(p, m)
    ensures |s| == p.key
  {
    m[p.value.helper][p.value.offset..p.value.offset + p.key]
  }

  ghost function Text(t: seq<Piece>, m: Bytes): seq<byte>
    requires AllFit(t, m)
  {
    if t == [] then [] else Text(t[..|t| - 1], m) + Slice(t[|t| - 1], m)
  }

  lemma {:induction false} TextOfSum(t: seq<Piece>, u: seq<Piece>, m: Bytes)
    requires AllFit(t, m) && AllFit(u, m)
    ensures AllFit(t + u, m) && Text(t + u, m) == Text(t, m) + Text(u, m)
  {
    if u == [] {
      assert t + u == t;
    } else {
      var v, p := u[..|u| - 1], u[|u| - 1];
      TextOfSum(t, v, m);
      assert (t + u)[..|t + u| - 1] == t + v && (t + u)[|t + u| - 1] == p;
      assert Text(t, m) + (Text(v, m) + Slice(p, m)) == Text(t, m) + Text(v, m) + Slice(p, m);
    }
  }

  lemma TextOfOne(p: Piece, m: Bytes)
    requires Fits(p, m)
    ensures Text([p], m) == Slice(p, m)
  {
    assert [p][..0] == [];
  }

  lemma {:induction false} OffsetOfPrefix(t: seq<Piece>, n: nat, i: nat)
    requires i <= n <= |t|
    ensures Offset(t[..n], i) == Offset(t, i)
  {
    if i > 0 {
      OffsetOfPrefix(t, n, i - 1);
    }
  }

  lemma {:induction false} TextLength(t: seq<Piece>, m: Bytes)
    requires AllFit(t, m)
    ensures |Text(t, m)| == Offset(t, |t|)
  {
    if t != [] {
      TextLength(t[..|t| - 1], m);
      OffsetOfPrefix(t, |t| - 1, |t| - 1);
    }
  }

  /** Pieces up to `i` hold the bytes before its offset, the others hold the rest. */
  lemma TextSplit(t: seq<Piece>, i: nat, m: Bytes)
    requires AllFit(t, m) && i <= |t|
    ensures |Text(t, m)| == Offset(t, |t|) && Offset(t, i) <= Offset(t, |t|)
    ensures Text(t[..i], m) == Text(t, m)[..Offset(t, i)]
    ensures Text(t[i..], m) == Text(t, m)[Offset(t, i)..]
  {
    hide Text;
    assert t == t[..i] + t[i..];
    TextOfSum(t[..i], t[i..], m);
    TextLength(t[..i], m);
    TextLength(t, m);
    OffsetOfPrefix(t, i, i);
  }

  /** Pieces in the middle hold the bytes in the middle. */
  lemma Sandwich(a: seq<Piece>, mid: seq<Piece>, b: seq<Piece>, m: Bytes)
    requires AllFit(a, m) && AllFit(mid, m) && AllFit(b, m)
    ensures AllFit(a + mid + b, m) && Text(a + mid + b, m) == Text(a, m) + Text(mid, m) + Text(b, m)
  {
    hide Text;
    TextOfSum(a, mid, m);
    TextOfSum(a + mid, b, m);
  }

  // ---- shared blocks only grow ---------------------------------------------------------

  /** Every block of `m` is in `n`, with the same bytes at its start. */
  ghost predicate Grows(m: Bytes, n: Bytes) {
    forall b | b in m :: b in n && m[b] <= n[b]
  }

  /** Whoever appends to a block, the slices others hold of it read the same. */
  lemma {:induction false} GrowthIsInvisible(t: seq<Piece>, m: Bytes, n: Bytes)
    requires AllFit(t, m) && Grows(m, n)
    ensures AllFit(t, n) && Text(t, n) == Text(t, m)
  {
    if t != [] {
      GrowthIsInvisible(t[..|t| - 1], m, n);
      var p := t[|t| - 1];
      assert Slice(p, n) == n[p.value.helper][..|m[p.value.helper]|][p.value.offset..p.value.offset + p.key];
    }
  }

  // ---- the tree changes -------------------------------------------------------------------

  function Halves(p: Piece, pos: nat): seq<Piece>
    requires pos <= p.key
  {
    [Piece(pos, p.value), Piece(p.key - pos, p.value.Subset(pos))]
  }

  lemma HalvesText(p: Piece, pos: nat, m: Bytes)
    requires Fits(p, m) && 0 < pos < p.key
    ensures AllFit(Halves(p, pos), m) && Text(Halves(p, pos), m) == Slice(p, m)
  {
    hide Text;
    var l, r := Piece(pos, p.value), Piece(p.key - pos, p.value.Subset(pos));
    TextOfOne(l, m);
    TextOfOne(r, m);
    TextOfSum([l], [r], m);
    assert [l] + [r] == Halves(p, pos);
    assert Slice(l, m) + Slice(r, m) == Slice(p, m);
  }

  lemma TextAt(t: seq<Piece>, i: nat, m: Bytes)
    requires AllFit(t, m) && i < |t|
    ensures Text(t, m) == Text(t[..i], m) + Slice(t[i], m) + Text(t[i + 1..], m)
  {
    hide Text;
    TextOfOne(t[i], m);
    Sandwich(t[..i], [t[i]], t[i + 1..], m);
    assert t == t[..i] + [t[i]] + t[i + 1..];
  }

  /** Splitting a piece changes neither the text nor which blocks are used. */
  lemma SplitText(t: seq<Piece>, it: nat, pos: nat, m: Bytes)
    requires AllFit(t, m) && it < |t| && 0 < pos < t[it].key
    ensures AllFit(t[..it] + Halves(t[it], pos) + t[it + 1..], m)
    ensures Text(t[..it] + Halves(t[it], pos) + t[it + 1..], m) == Text(t, m)
  {
    hide Text;
    TextAt(t, it, m);
    HalvesText(t[it], pos, m);
    Sandwich(t[..it], Halves(t[it], pos), t[it + 1..], m);
  }

  lemma SplitOffset(t: seq<Piece>, it: nat, pos: nat)
    requires it < |t| && pos <= t[it].key
    ensures Offset(t[..it] + Halves(t[it], pos) + t[it + 1..], it + 1) == Offset(t, it) + pos
  {
    var u := t[..it] + Halves(t[it], pos) + t[it + 1..];
    OffsetOfPrefix(u, it, it);
    OffsetOfPrefix(t, it, it);
    assert u[..it] == t[..it];
  }

  lemma TextOfPrefix(t: seq<Piece>, k: nat, m: Bytes)
    requires AllFit(t, m) && k < |t|
    ensures Text(t[..k + 1], m) == Text(t[..k], m) + Slice(t[k], m)
  {
    hide Text;
    TextOfOne(t[k], m);
    TextOfSum(t[..k], [t[k]], m);
    assert t[..k + 1] == t[..k] + [t[k]];
  }

  /** Appending to the block of piece `k`, which ends where its block ends, and making the
      piece longer puts the new bytes behind the piece; all other pieces, of this storage
      and of others, read as before. */
  lemma ExtendText(t: seq<Piece>, k: nat, data: seq<byte>, m: Bytes)
    requires AllFit(t, m) && k < |t| && t[k].value.offset + t[k].key == |m[t[k].value.helper]|
    ensures var b := t[k].value.helper;
            var n, u := m[b := m[b] + data], t[k := Piece(t[k].key + |data|, t[k].value)];
            Grows(m, n) && AllFit(u, n) &&
            Offset(t, k + 1) <= |Text(t, m)| &&
            Text(u, n) == Text(t, m)[..Offset(t, k + 1)] + data + Text(t, m)[Offset(t, k + 1)..]
  {
    hide Text;
    var b := t[k].value.helper;
    var n, p := m[b := m[b] + data], Piece(t[k].key + |data|, t[k].value);
    GrowthIsInvisible(t[..k], m, n);
    GrowthIsInvisible(t[k + 1..], m, n);
    TextOfOne(p, n);
    assert Slice(p, n) == Slice(t[k], m) + data;
    Sandwich(t[..k], [p], t[k + 1..], n);
    assert t[k := p] == t[..k] + [p] + t[k + 1..];
    TextOfPrefix(t, k, m);
    assert Text(t[..k], m) + (Slice(t[k], m) + data) == Text(t[..k], m) + Slice(t[k], m) + data;
    TextSplit(t, k + 1, m);
  }

  /** A new piece with a block of its own puts its bytes where the piece goes. */
  lemma AddText(t: seq<Piece>, it: nat, b: Block, data: seq<byte>, m: Bytes)
    requires AllFit(t, m) && it <= |t| && b !in m && |data| > 0
    ensures var n, u := m[b := data], t[..it] + [Piece(|data|, Memory(b, 0))] + t[it..];
            Grows(m, n) && AllFit(u, n) &&
            Offset(t, it) <= |Text(t, m)| &&
                Text(u, n) == Text(t, m)[..Offset(t, it)] + data + Text(t, m)[Offset(t, it)..]
  {
    hide Text;
    var n, p := m[b := data], Piece(|data|, Memory(b, 0));
    GrowthIsInvisible(t[..it], m, n);
    GrowthIsInvisible(t[it..], m, n);
    TextOfOne(p, n);
    Sandwich(t[..it], [p], t[it..], n);
    TextSplit(t, it, m);
  }

  // ---- finding positions ---------------------------------------------------------

  /** The first piece whose offset is greater than `pos`. */
  function UpperBound(t: seq<Piece>, pos: nat, i: nat := 0): (r: nat)
    requires i <= |t|
    ensures i <= r <= |t|
    ensures i < r ==> Offset(t, r - 1) <= pos
    ensures r < |t| ==> pos < Offset(t, r)
    decreases |t| - i
  {
    if i == |t| || pos < Offset(t, i) then i else UpperBound(t, pos, i + 1)
  }

  /** The last piece that starts at or before `pos`; the end only if there is no piece. */
  function FindPos(t: seq<Piece>, pos: nat): (r: nat)
    ensures t == [] ==> r == 0
    ensures t != [] ==> r < |t| && Offset(t, r) <= pos
    ensures r + 1 < |t| ==> pos < Offset(t, r + 1)
  {
    var it := UpperBound(t, pos);
    if it != 0 then it - 1 else it
  }

  lemma {:induction false} OffsetsGrow(t: seq<Piece>, i: nat, j: nat)
    requires (forall n | 0 <= n < |t| :: t[n].key > 0) && i < j <= |t|
    ensures Offset(t, i) < Offset(t, j)
  {
    if i < j - 1 {
      OffsetsGrow(t, i, j - 1);
    }
  }

  /** Positions inside the text lie inside the piece that `FindPos` gives. */
  lemma FoundPiece(t: seq<Piece>, pos: nat)
    requires pos <= Offset(t, |t|)
    ensures t == [] ==> pos == 0 == Offset(t, 0)
    ensures t != [] ==> 0 <= pos - Offset(t, FindPos(t, pos)) <= t[FindPos(t, pos)].key
    ensures t != [] && pos < Offset(t, |t|) ==> pos - Offset(t, FindPos(t, pos)) < t[FindPos(t, pos)].key
  {
  }

  // ---- any number of storages -----------------------------------------------------------

  ghost function BlocksOf(t: seq<Piece>): set<Block> {
    set i | 0 <= i < |t| :: t[i].value.helper
  }

  ghost function DataOf(bs: set<Block>): set<array<byte>> {
    set b | b in bs :: b.data
  }

  ghost function BytesOf(bs: set<Block>): Bytes
    requires forall b | b in bs :: b.Valid()
    reads bs, DataOf(bs)
  {
    map b | b in bs :: b.Used()
  }

  /** Every block has its own allocation. */
  ghost predicate Apart(bs: set<Block>)
    reads bs
  {
    (forall b | b in bs :: b.Valid()) &&
    forall a, b | a in bs && b in bs && a != b :: a.data != b.data
  }

  ghost function AllBlocks(family: set<Storage>): set<Block>
    reads family
  {
    set s, b | s in family && b in s.Blocks() :: b
  }

  /** Storages that may share blocks with one another in any way. */
  ghost predicate Family(family: set<Storage>)
    reads family, AllBlocks(family), DataOf(AllBlocks(family))
  {
    Apart(AllBlocks(family)) && forall s | s in family :: s.Valid()
  }

  /** `storage_t` */
  class Storage {
    var tree: seq<Piece>

    ghost function Blocks(): set<Block>
      reads this
    {
      BlocksOf(tree)
    }

    ghost predicate Valid()
      reads this, Blocks(), DataOf(Blocks())
    {
      (forall b | b in Blocks() :: b.Valid()) && AllFit(tree, BytesOf(Blocks()))
    }

    /** The plain byte sequence this storage stands for. */
    ghost function Contents(): seq<byte>
      requires Valid()
      reads this, Blocks(), DataOf(Blocks())
    {
      Text(tree, BytesOf(Blocks()))
    }

    function Size(): nat
      reads this
    {
      Offset(tree, |tree|)
    }

    /** An empty storage belongs to any family. */
    constructor (ghost family: set<Storage> := {})
      requires Family(family)
      ensures tree == [] && Family(family + {this}) && Contents() == [] && Blocks() == {}
      ensures AllBlocks(family + {this}) == AllBlocks(family)
      ensures forall s | s in family :: s.tree == old(s.tree) && s.Contents() == old(s.Contents())
    {
      hide Text, AllFit, Offset;
      ghost var bs := AllBlocks(family);
      ghost var m := BytesOf(bs);
      FamilyText(family);
      NoText(m);
      tree := [];
      new;
      assert Apart(bs) && BytesOf(bs) == m;
      FamilyReads(family + {this}, bs, m);
      assert AllBlocks(family + {this}) == AllBlocks(family);
    }

    /** A copy shares every block with the original, and joins its family. */
    constructor Copy(rhs: Storage, ghost family: set<Storage>)
      requires rhs in family && Family(family)
      ensures tree == rhs.tree && Family(family + {this}) && Contents() == rhs.Contents()
      ensures AllBlocks(family + {this}) == AllBlocks(family)
      ensures forall s | s in family :: s.tree == old(s.tree) && s.Contents() == old(s.Contents())
    {
      hide Text, AllFit, Offset, BlocksOf;
      ghost var bs := AllBlocks(family);
      ghost var m := BytesOf(bs);
      FamilyText(family);
      tree := rhs.tree;
      new;
      assert Apart(bs) && BytesOf(bs) == m;
      FamilyReads(family, bs, m);
      Joined(family, this, rhs);
    }

    method SplitAt(it: nat, pos: nat, ghost family: set<Storage>) returns (r: nat)
      requires this in family && Family(family)
      requires it < |tree| && pos <= tree[it].key
      modifies this
      ensures Family(family) && Blocks() == old(Blocks()) && Contents() == old(Contents())
      ensures it <= r <= it + 1 && r <= |tree| && Offset(tree, r) == old(Offset(tree, it)) + pos
      ensures |tree| >= |old(tree)| && tree[..it] == old(tree)[..it]
      ensures pos == 0 || pos == old(tree[it].key) ==> tree == old(tree)
      ensures pos > 0 ==> r == it + 1
      ensures forall s | s in family && s != this :: s.tree == old(s.tree) && s.Contents() == old(s.Contents())
    {
      hide Text, AllFit, Offset, BlocksOf;
      if pos == 0 {
        return it;
      } else if pos == tree[it].key {
        OffsetStep(tree, it);
        return it + 1;
      }
      ghost var bs, t := AllBlocks(family), tree;
      ghost var m := BytesOf(bs);
      FamilyText(family);
      SplitTree(t, it, pos, m);
      var suffixLen := tree[it].key - pos;
      var suffix := tree[it].value.Subset(pos);
      tree := tree[..it] + [Piece(pos, tree[it].value), Piece(suffixLen, suffix)] + tree[it + 1..];
      r := it + 1;
      assert Apart(bs) && BytesOf(bs) == m;
      FamilyReads(family, bs, m);
    }

    /** `data` goes to the end of the block before `pos` if it fits, else into a new block.
        The other storages of the family do not notice. */
    method Insert(pos: nat, data: seq<byte>, slack: nat, ghost family: set<Storage>)
      requires this in family && Family(family)
      requires pos <= Size()
      modifies this, Blocks(), DataOf(Blocks())
      ensures Family(family) && fresh(Blocks() - old(Blocks()))
      ensures forall b | b in Blocks() && b !in old(Blocks()) :: fresh(b.data)
      ensures |old(Contents())| == old(Size())
      ensures Contents() == old(Contents())[..pos] + data + old(Contents())[pos..]
      ensures forall s | s in family && s != this :: s.tree == old(s.tree) && s.Contents() == old(s.Contents())
    {
      hide Text, Offset, AllFit, BytesOf, FindPos, UpperBound, AllBlocks, Apart;
      ContentsLength();
      if |data| == 0 {
        assert Contents() == Contents()[..pos] + data + Contents()[pos..];
        return;
      }

      var it := FindPos(tree, pos);
      FoundPiece(tree, pos);
      if it < |tree| && Offset(tree, it) < pos {
        it := SplitAt(it, pos - Offset(tree, it), family);
      }

      if it > 0 {
        var tmp := it - 1;
        if tree[tmp].key == tree[tmp].value.Size() && |data| <= tree[tmp].value.helper.Available() {
          ExtendPiece(tmp, data, family);
          return;
        }
      }

      var helper := AddPiece(it, data, slack, family);
    }

    lemma ContentsLength()
      requires Valid()
      ensures |Contents()| == Size()
    {
      TextLength(tree, BytesOf(Blocks()));
    }

    /** Inserting where the block of the piece before ends and has room. */
    method ExtendPiece(tmp: nat, data: seq<byte>, ghost family: set<Storage>)
      requires this in family && Family(family)
      requires tmp < |tree| && tree[tmp].key == tree[tmp].value.Size()
      requires |data| <= tree[tmp].value.helper.Available()
      modifies this, tree[tmp].value.helper, tree[tmp].value.helper.data
      ensures Family(family) && Blocks() == old(Blocks())
      ensures old(Offset(tree, tmp + 1)) <= |old(Contents())|
      ensures Contents() ==
              old(Contents())[..old(Offset(tree, tmp + 1))] + data + old(Contents())[old(Offset(tree, tmp + 1))..]
      ensures forall s | s in family && s != this :: s.tree == old(s.tree) && s.Contents() == old(s.Contents())
    {
      hide Text, AllFit, Grows, Offset, BlocksOf;
      ghost var bs, t := AllBlocks(family), tree;
      ghost var m := BytesOf(bs);
      FamilyText(family);
      FitsAt(t, tmp, m);
      ExtendText(t, tmp, data, m);
      GrowPiece(tmp, data, bs);
      SameHelpers(t, tree);
      FamilyReads(family, bs, m);
    }

    method GrowPiece(tmp: nat, data: seq<byte>, ghost bs: set<Block>)
      requires Apart(bs) && tmp < |tree| && tree[tmp].value.helper in bs && |data| <= tree[tmp].value.helper.Available()
      modifies this, tree[tmp].value.helper, tree[tmp].value.helper.data
      ensures tree == old(tree)[tmp := Piece(old(tree)[tmp].key + |data|, old(tree)[tmp].value)] && Apart(bs)
      ensures var b := old(tree)[tmp].value.helper;
              BytesOf(bs) == old(BytesOf(bs))[b := old(BytesOf(bs))[b] + data]
    {
      tree[tmp].value.helper.Append(data);
      tree := tree[tmp := Piece(tree[tmp].key + |data|, tree[tmp].value)];
    }

    /** Inserting a new piece with a block of its own. */
    method AddPiece(it: nat, data: seq<byte>, slack: nat, ghost family: set<Storage>) returns (helper: Block)
      requires this in family && Family(family)
      requires it <= |tree| && |data| > 0
      modifies this
      ensures Family(family) && Blocks() == old(Blocks()) + {helper} && fresh(helper) && fresh(helper.data)
      ensures old(Offset(tree, it)) <= |old(Contents())|
      ensures Contents() == old(Contents())[..old(Offset(tree, it))] + data + old(Contents())[old(Offset(tree, it))..]
      ensures forall s | s in family && s != this :: s.tree == old(s.tree) && s.Contents() == old(s.Contents())
    {
      hide Text, AllFit, Fits, Grows, Offset, BlocksOf;
      ghost var bs, t := AllBlocks(family), tree;
      ghost var m, c, at := BytesOf(bs), Contents(), Offset(tree, it);
      FamilyText(family);
      helper := new Block(data, slack);
      AddText(t, it, helper, data, m);
      tree := tree[..it] + [Piece(|data|, Memory(helper, 0))] + tree[it..];
      assert Apart(bs + {helper});
      assert BytesOf(bs + {helper}) == m[helper := data];
      AddedBlocks(t, it, Piece(|data|, Memory(helper, 0)));
      FamilyReads(family, bs + {helper}, m);
      assert Contents() == c[..at] + data + c[at..];
    }

    /** Cuts the bytes [first, last) out by splitting at both ends. */
    method Erase(first: nat, last: nat, ghost family: set<Storage>)
      requires this in family && Family(family)
      requires first <= last <= Size()
      modifies this
      ensures Family(family) && Blocks() <= old(Blocks())
      ensures |old(Contents())| == old(Size())
      ensures Contents() == old(Contents())[..first] + old(Contents())[last..]
      ensures forall s | s in family && s != this :: s.tree == old(s.tree) && s.Contents() == old(s.Contents())
    {
      hide Text, Offset, AllFit, BlocksOf, FindPos;
      ContentsLength();
      var from := FindPos(tree, first);
      FoundPiece(tree, first);
      if from < |tree| {
        from := SplitAt(from, first - Offset(tree, from), family);
      }
      assert Offset(tree, from) == first;
      ghost var t := tree;
      ContentsLength();
      var to := FindPos(tree, last);
      FoundPiece(tree, last);
      FoundBehind(t, from, last, BytesOf(Blocks()));
      if to < |tree| {
        OffsetStep(tree, to);
        to := SplitAt(to, last - Offset(tree, to), family);
      }
      assert Offset(tree, to) == last;
      KeptPrefix(t, tree, FindPos(t, last), from);
      CutTree(from, to, family);
    }

    method CutTree(from: nat, to: nat, ghost family: set<Storage>)
      requires this in family && Family(family)
      requires from <= to <= |tree|
      modifies this
      ensures Family(family) && Blocks() <= old(Blocks())
      ensures old(Offset(tree, from)) <= |old(Contents())| && old(Offset(tree, to)) <= |old(Contents())|
      ensures Contents() == old(Contents())[..old(Offset(tree, from))] + old(Contents())[old(Offset(tree, to))..]
      ensures forall s | s in family && s != this :: s.tree == old(s.tree) && s.Contents() == old(s.Contents())
    {
      hide Text, Offset, AllFit, BlocksOf;
      ghost var bs, t := AllBlocks(family), tree;
      ghost var m := BytesOf(bs);
      FamilyText(family);
      CutText(t, from, to, m);
      tree := tree[..from] + tree[to..];
      assert Apart(bs) && BytesOf(bs) == m;
      FamilyReads(family, bs, m);
    }

    /** `operator[]`, for positions inside the text. */
    method At(i: nat) returns (c: byte)
      requires Valid() && i < Size()
      ensures i < |Contents()| && c == Contents()[i]
    {
      hide Text, Offset, AllFit, BlocksOf, FindPos;
      var it := FindPos(tree, i);
      FoundPiece(tree, i);
      PartOfPiece(tree, it, Blocks(), i - Offset(tree, it), i - Offset(tree, it) + 1);
      c := tree[it].value.helper.data[tree[it].value.offset + (i - Offset(tree, it))];
    }

    /** Compares piece by piece, however the two texts are split into pieces. */
    method Equals(rhs: Storage) returns (r: bool)
      requires Valid() && rhs.Valid()
      ensures r <==> Contents() == rhs.Contents()
    {
      hide Text, Offset, AllFit, BlocksOf, Within;
      ContentsLength();
      rhs.ContentsLength();
      if Size() != rhs.Size() {
        return false;
      }
      ghost var bs, ds, c, d := Blocks(), rhs.Blocks(), Contents(), rhs.Contents();
      Start(tree, BytesOf(bs));
      Start(rhs.tree, BytesOf(ds));
      var lhsIter, rhsIter := 0, 0;
      var lhsOffset: nat, rhsOffset: nat := 0, 0;
      ghost var done: nat := 0;
      while lhsIter < |tree| && rhsIter < |rhs.tree|
        invariant Valid() && rhs.Valid() && Contents() == c && rhs.Contents() == d
        invariant lhsIter <= |tree| && Within(tree, lhsIter, lhsOffset, done)
        invariant rhsIter <= |rhs.tree| && Within(rhs.tree, rhsIter, rhsOffset, done)
        invariant done <= |c| == |d| && c[..done] == d[..done]
        decreases |tree| - lhsIter + (|rhs.tree| - rhsIter)
      {
        WithinPiece(tree, lhsIter, lhsOffset, done);
        WithinPiece(rhs.tree, rhsIter, rhsOffset, done);
        var size := Min(tree[lhsIter].key - lhsOffset, rhs.tree[rhsIter].key - rhsOffset);
        CompareParts(tree, lhsIter, lhsOffset, bs, rhs.tree, rhsIter, rhsOffset, ds, done, size);
        if !tree[lhsIter].value.SameBytes(lhsOffset, rhs.tree[rhsIter].value, rhsOffset, size) {
          return false;
        }
        Next(tree, lhsIter, lhsOffset, size, done, BytesOf(bs));
        Next(rhs.tree, rhsIter, rhsOffset, size, done, BytesOf(ds));
        done := done + size;

        lhsOffset := lhsOffset + size;
        rhsOffset := rhsOffset + size;
        if lhsOffset == tree[lhsIter].key {
          lhsOffset := 0;
          lhsIter := lhsIter + 1;
        }
        if rhsOffset == rhs.tree[rhsIter].key {
          rhsOffset := 0;
          rhsIter := rhsIter + 1;
        }
      }
      AtEnd(tree, lhsIter, lhsOffset, done);
      AtEnd(rhs.tree, rhsIter, rhsOffset, done);
      assert c[..|c|] == c && d[..|d|] == d;
      return lhsIter == |tree| && rhsIter == |rhs.tree|;
    }

    method Substr(first: nat, last: nat) returns (res: seq<byte>)
      requires Valid() && first <= last <= Size()
      ensures last <= |Contents()| && res == Contents()[first..last]
    {
      hide Text, Offset, AllFit, BlocksOf, Copying, FindPos, UpperBound;
      ContentsLength();
      ghost var c := Contents();
      res := [];
      var it := FindPos(tree, first);
      var to := UpperBound(tree, last);
      ghost var done := first;
      CopyStart(tree, first, last, BytesOf(Blocks()));
      while it < to
        invariant Valid() && Contents() == c && it <= to <= |tree|
        invariant first <= done <= last && Copying(tree, it, to, first, last, done)
        invariant res == c[first..done]
      {
        CopyStep(tree, it, to, first, last, done);
        var i := Max(Offset(tree, it), first) - Offset(tree, it);
        var j := Min(Offset(tree, it) + tree[it].key, last) - Offset(tree, it);
        var part := Part(it, i, j);
        Adjoin(c, first, done, Offset(tree, it) + j);
        res := res + part;
        done := Offset(tree, it) + j;
        it := it + 1;
      }
      CopyEnd(tree, it, to, first, last, done);
    }

    /** What the loop copies of one piece. */
    method Part(it: nat, i: nat, j: nat) returns (part: seq<byte>)
      requires Valid() && it < |tree| && i <= j <= tree[it].key
      ensures Valid() && Contents() == old(Contents()) && Offset(tree, it) + j <= |Contents()|
      ensures part == Contents()[Offset(tree, it) + i..Offset(tree, it) + j]
    {
      hide Text, Offset, AllFit, BlocksOf;
      PartOfPiece(tree, it, Blocks(), i, j);
      part := tree[it].value.helper.data[tree[it].value.offset + i..tree[it].value.offset + j];
    }
  }

  function Max(a: nat, b: nat): nat {
    if a < b then b else a
  }

  function Min(a: nat, b: nat): nat {
    if a < b then a else b
  }

  lemma SplitTree(t: seq<Piece>, it: nat, pos: nat, m: Bytes)
    requires AllFit(t, m) && it < |t| && 0 < pos < t[it].key
    ensures var u := t[..it] + Halves(t[it], pos) + t[it + 1..];
            AllFit(u, m) && Text(u, m) == Text(t, m) && BlocksOf(u) == BlocksOf(t) &&
            Offset(u, it + 1) == Offset(t, it) + pos && |u| == |t| + 1 && u[..it] == t[..it]
  {
    hide Text, AllFit, Offset, BlocksOf;
    SplitText(t, it, pos, m);
    SplitOffset(t, it, pos);
    SplitBlocks(t, it, pos);
  }

  lemma OffsetStep(t: seq<Piece>, i: nat)
    requires i < |t|
    ensures Offset(t, i + 1) == Offset(t, i) + t[i].key
  {
  }

  /** Piece `i` holds the bytes that start at its offset. */
  lemma SliceAt(t: seq<Piece>, i: nat, m: Bytes)
    requires AllFit(t, m) && i < |t|
    ensures Offset(t, i) + t[i].key == Offset(t, i + 1) <= |Text(t, m)| == Offset(t, |t|)
    ensures Slice(t[i], m) == Text(t, m)[Offset(t, i)..Offset(t, i + 1)]
  {
    hide Text;
    TextSplit(t, i, m);
    TextSplit(t, i + 1, m);
    TextOfPrefix(t, i, m);
  }

  /** Any part of piece `k` is the corresponding part of the text. */
  lemma PartOfPiece(t: seq<Piece>, k: nat, bs: set<Block>, i: nat, j: nat)
    requires (forall b | b in bs :: b.Valid()) && AllFit(t, BytesOf(bs)) && k < |t| && i <= j <= t[k].key
    ensures t[k].value.offset + j <= t[k].value.helper.size <= t[k].value.helper.data.Length
    ensures Offset(t, k) + t[k].key == Offset(t, k + 1) <= |Text(t, BytesOf(bs))| == Offset(t, |t|)
    ensures t[k].value.helper.data[t[k].value.offset + i..t[k].value.offset + j] ==
            Text(t, BytesOf(bs))[Offset(t, k) + i..Offset(t, k) + j]
  {
    hide Text, Offset;
    var p, m := t[k], BytesOf(bs);
    SliceAt(t, k, m);
    SliceOfSlice(Text(t, m), Offset(t, k), Offset(t, k + 1), i, j);
    SliceOfSlice(p.value.helper.Used(), p.value.offset, p.value.offset + p.key, i, j);
    SliceOfSlice(p.value.helper.data[..], 0, p.value.helper.size, p.value.offset + i, p.value.offset + j);
  }

  lemma SliceOfSlice<T>(s: seq<T>, a: nat, b: nat, i: nat, j: nat)
    requires i <= j <= b - a && b <= |s|
    ensures s[a..b][i..j] == s[a + i..a + j]
  {
    forall k | 0 <= k < j - i ensures s[a..b][i..j][k] == s[a + i..a + j][k] {
      assert s[a..b][i + k] == s[a + i + k];
    }
  }

  lemma NextSlice(a: seq<byte>, b: seq<byte>, done: nat, size: nat)
    requires done + size <= |a| && done + size <= |b| && a[..done] == b[..done]
    ensures a[done..done + size] == b[done..done + size] ==> a[..done + size] == b[..done + size]
    ensures a[done..done + size] != b[done..done + size] ==> a != b
  {
    assert a[..done + size] == a[..done] + a[done..done + size];
    assert b[..done + size] == b[..done] + b[done..done + size];
  }

  /** Comparing a part of one piece with a part of another compares the next bytes of the texts. */
  lemma CompareParts(t: seq<Piece>, i: nat, offset: nat, bs: set<Block>, u: seq<Piece>, j: nat, offset': nat,
      ds: set<Block>, done: nat, size: nat)
    requires (forall b | b in bs :: b.Valid()) && AllFit(t, BytesOf(bs)) && i < |t| && offset + size <= t[i].key
    requires (forall b | b in ds :: b.Valid()) && AllFit(u, BytesOf(ds)) && j < |u| && offset' + size <= u[j].key
    requires done == Offset(t, i) + offset == Offset(u, j) + offset'
    requires done <= |Text(t, BytesOf(bs))| && done <= |Text(u, BytesOf(ds))|
    requires Text(t, BytesOf(bs))[..done] == Text(u, BytesOf(ds))[..done]
    ensures t[i].value.helper.Valid() && offset + size <= t[i].value.Size()
    ensures u[j].value.helper.Valid() && offset' + size <= u[j].value.Size()
    ensures var a, b, same := Text(t, BytesOf(bs)), Text(u, BytesOf(ds)),
            t[i].value.SameBytes(offset, u[j].value, offset', size);
            done + size <= |a| && done + size <= |b| && (same ==> a[..done + size] == b[..done + size]) &&
                (!same ==> a != b)
  {
    hide Text, Offset, AllFit;
    PartOfPiece(t, i, bs, offset, offset + size);
    PartOfPiece(u, j, ds, offset', offset' + size);
    NextSlice(Text(t, BytesOf(bs)), Text(u, BytesOf(ds)), done, size);
  }

  lemma CutText(t: seq<Piece>, from: nat, to: nat, m: Bytes)
    requires AllFit(t, m) && from <= to <= |t|
    ensures AllFit(t[..from] + t[to..], m) && BlocksOf(t[..from] + t[to..]) <= BlocksOf(t)
    ensures Offset(t, from) <= |Text(t, m)| && Offset(t, to) <= |Text(t, m)|
    ensures Text(t[..from] + t[to..], m) == Text(t, m)[..Offset(t, from)] + Text(t, m)[Offset(t, to)..]
  {
    hide Text;
    TextSplit(t, from, m);
    TextSplit(t, to, m);
    TextOfSum(t[..from], t[to..], m);
    var u := t[..from] + t[to..];
    assert forall i | 0 <= i < |u| :: u[i] == t[if i < from then i else i + (to - from)];
  }

  lemma FoundBehind(t: seq<Piece>, from: nat, pos: nat, m: Bytes)
    requires AllFit(t, m) && from <= |t| && Offset(t, from) <= pos <= Offset(t, |t|)
    ensures var r := FindPos(t, pos);
            from <= r || (from == |t| == r + 1 && 0 < t[r].key == pos - Offset(t, r))
  {
    var r := FindPos(t, pos);
    OffsetsMonotone(t, Min(r + 1, from), from);
  }

  lemma KeptPrefix(t: seq<Piece>, u: seq<Piece>, n: nat, i: nat)
    requires (i <= n <= |t| && n <= |u| && t[..n] == u[..n]) || (t == u && i <= |t|)
    ensures i <= |u| && Offset(t, i) == Offset(u, i)
  {
    if t != u {
      OffsetOfPrefix(t, n, i);
      OffsetOfPrefix(u, n, i);
    }
  }

  /** The position `offset` bytes into piece `i` is byte `done` of the text. */
  predicate Within(t: seq<Piece>, i: nat, offset: nat, done: nat)
    requires i <= |t|
  {
    done == Offset(t, i) + offset &&
    (forall k | i <= k < |t| :: t[k].key > 0) &&
    if i < |t| then offset < t[i].key else offset == 0
  }

  lemma Start(t: seq<Piece>, m: Bytes)
    requires AllFit(t, m)
    ensures Within(t, 0, 0, 0)
  {
  }

  lemma WithinPiece(t: seq<Piece>, i: nat, offset: nat, done: nat)
    requires i < |t| && Within(t, i, offset, done)
    ensures offset < t[i].key && done == Offset(t, i) + offset
  {
  }

  lemma Next(t: seq<Piece>, i: nat, offset: nat, size: nat, done: nat, m: Bytes)
    requires i < |t| && Within(t, i, offset, done) && offset + size <= t[i].key
    ensures if offset + size == t[i].key then Within(t, i + 1, 0, done + size)
            else Within(t, i, offset + size, done + size)
  {
  }

  lemma AtEnd(t: seq<Piece>, i: nat, offset: nat, done: nat)
    requires i <= |t| && Within(t, i, offset, done)
    ensures done <= Offset(t, |t|)
    ensures i == |t| <==> done == Offset(t, |t|)
  {
    if i < |t| {
      OffsetsMonotone(t, i + 1, |t|);
    }
  }

  lemma {:induction false} OffsetsMonotone(t: seq<Piece>, i: nat, j: nat)
    requires i <= j <= |t|
    ensures Offset(t, i) <= Offset(t, j)
  {
    if i < j {
      OffsetsMonotone(t, i, j - 1);
    }
  }

  /** Bytes [first, done) are copied and piece `it` comes next, out of those before `to`. */
  predicate Copying(t: seq<Piece>, it: nat, to: nat, first: nat, last: nat, done: nat)
    requires it <= to <= |t|
  {
    first <= last <= Offset(t, |t|) &&
    (to < |t| ==> last < Offset(t, to)) && (it < to ==> Offset(t, to - 1) <= last) &&
    if it == to then done == last else first <= Offset(t, it + 1) && done == Max(Offset(t, it), first)
  }

  lemma CopyStart(t: seq<Piece>, first: nat, last: nat, m: Bytes)
    requires AllFit(t, m) && first <= last <= Offset(t, |t|)
    ensures FindPos(t, first) <= UpperBound(t, last) &&
            Copying(t, FindPos(t, first), UpperBound(t, last), first, last, first)
  {
    OffsetsMonotone(t, Min(UpperBound(t, last), FindPos(t, first)), FindPos(t, first));
  }

  lemma CopyStep(t: seq<Piece>, it: nat, to: nat, first: nat, last: nat, done: nat)
    requires it < to <= |t| && Copying(t, it, to, first, last, done)
    ensures var i, j := Max(Offset(t, it), first) - Offset(t, it), Min(Offset(t, it) + t[it].key, last) - Offset(t, it);
            0 <= i <= j <= t[it].key && done == Offset(t, it) + i &&
            Copying(t, it + 1, to, first, last, Offset(t, it) + j)
  {
    hide Offset;
    OffsetStep(t, it);
    OffsetsMonotone(t, it, to - 1);
    OffsetsMonotone(t, it + 1, Max(it + 1, to - 1));
    OffsetsMonotone(t, it + 1, Min(it + 2, |t|));
  }

  lemma Adjoin(c: seq<byte>, a: nat, b: nat, d: nat)
    requires a <= b <= d <= |c|
    ensures c[a..b] + c[b..d] == c[a..d]
  {
  }

  lemma CopyEnd(t: seq<Piece>, it: nat, to: nat, first: nat, last: nat, done: nat)
    requires it == to <= |t| && Copying(t, it, to, first, last, done)
    ensures done == last
  {
  }

  lemma FitsAt(t: seq<Piece>, i: nat, m: Bytes)
    requires AllFit(t, m) && i < |t|
    ensures Fits(t[i], m)
  {
  }

  /** In a family, every storage can be read from the bytes of all blocks together. */
  lemma FamilyText(family: set<Storage>)
    requires Family(family)
    ensures forall s | s in family :: AllFit(s.tree, BytesOf(AllBlocks(family)))
    ensures forall s | s in family :: s.Contents() == Text(s.tree, BytesOf(AllBlocks(family)))
  {
    hide Text;
    var m := BytesOf(AllBlocks(family));
    forall s | s in family ensures AllFit(s.tree, m) && s.Contents() == Text(s.tree, m) {
      SameBytes(s.tree, BytesOf(s.Blocks()), m);
    }
  }

  /** Storages that read their text in bytes `bs`, which have grown from `m`, are a family;
      those whose trees fitted `m` read the same as in `m`. */
  lemma FamilyReads(family: set<Storage>, bs: set<Block>, m: Bytes)
    requires Apart(bs) && Grows(m, BytesOf(bs))
    requires forall s | s in family :: AllFit(s.tree, BytesOf(bs)) || AllFit(s.tree, m)
    ensures Family(family)
    ensures forall s | s in family :: AllFit(s.tree, BytesOf(bs)) && s.Contents() == Text(s.tree, BytesOf(bs))
    ensures forall s | s in family && AllFit(s.tree, m) :: s.Contents() == Text(s.tree, m)
  {
    hide Text;
    var n := BytesOf(bs);
    forall s | s in family
      ensures s.Blocks() <= bs && s.Valid() && AllFit(s.tree, n) && s.Contents() == Text(s.tree, n)
      ensures AllFit(s.tree, m) ==> s.Contents() == Text(s.tree, m)
    {
      if AllFit(s.tree, m) {
        GrowthIsInvisible(s.tree, m, n);
      }
      assert s.Blocks() <= bs;
      SameBytes(s.tree, n, BytesOf(s.Blocks()));
    }
  }

  lemma NoText(m: Bytes)
    ensures AllFit([], m) && Text([], m) == []
  {
  }

  /** A storage with the same tree as one of the family reads the same and belongs to it. */
  lemma Joined(family: set<Storage>, s: Storage, rhs: Storage)
    requires rhs in family && Family(family) && s.tree == rhs.tree
    ensures Family(family + {s}) && s.Contents() == rhs.Contents() && AllBlocks(family + {s}) == AllBlocks(family)
  {
    hide Text, AllFit;
    assert AllBlocks(family + {s}) == AllBlocks(family);
  }

  // ---- runs ---------------------------------------------------------------------------------

  datatype Operation =
    | Create
    | CopyOf(k: nat)
    | InsertInto(k: nat, pos: nat, data: seq<byte>, slack: nat)
    | EraseFrom(k: nat, first: nat, last: nat)

  /** Operations that name no storage, or positions it does not have, are left out. */
  function Step(texts: seq<seq<byte>>, op: Operation): seq<seq<byte>> {
    match op
    case Create => texts + [[]]
    case CopyOf(k) => if k < |texts| then texts + [texts[k]] else texts
    case InsertInto(k, pos, data, _) =>
      if k < |texts| && pos <= |texts[k]| then texts[k := Splice(texts[k], pos, pos, data)] else texts
    case EraseFrom(k, first, last) =>
      if k < |texts| && first <= last <= |texts[k]| then texts[k := Splice(texts[k], first, last, [])] else texts
  }

  /** The plain byte sequences after a run, each on its own. */
  function Texts(ops: seq<Operation>): seq<seq<byte>> {
    if ops == [] then [] else Step(Texts(ops[..|ops| - 1]), ops[|ops| - 1])
  }

  ghost function Members(all: seq<Storage>): set<Storage> {
    set s | s in all
  }

  /** The storages are a family in which each reads as its own text. */
  ghost predicate Reads(all: seq<Storage>, texts: seq<seq<byte>>)
    reads Members(all), AllBlocks(Members(all)), DataOf(AllBlocks(Members(all)))
  {
    Family(Members(all)) && |all| == |texts| && (forall i, j | 0 <= i < j < |all| :: all[i] != all[j]) &&
    forall i | 0 <= i < |all| :: all[i].Contents() == texts[i]
  }

  /** Any run of storages that are created, copied from one another and edited, blocks being shared:
      each reads as its own plain byte sequence. */
  method Perform(ops: seq<Operation>) returns (all: seq<Storage>)
    ensures Reads(all, Texts(ops))
  {
    all := [];
    for n := 0 to |ops|
      invariant Reads(all, Texts(ops[..n])) && forall s | s in Members(all) :: fresh(s)
      invariant forall b | b in AllBlocks(Members(all)) :: fresh(b) && fresh(b.data)
    {
      assert ops[..n + 1][..n] == ops[..n];
      match ops[n]
      case Create => all := PerformCreate(all, Texts(ops[..n]));
      case CopyOf(k) =>
        if k < |all| {
          all := PerformCopy(all, k, Texts(ops[..n]));
        }
      case InsertInto(k, pos, data, slack) =>
        if k < |all| && pos <= all[k].Size() {
          PerformInsert(all, k, pos, data, slack, Texts(ops[..n]));
        } else if k < |all| {
          all[k].ContentsLength();
        }
      case EraseFrom(k, first, last) =>
        if k < |all| && first <= last <= all[k].Size() {
          PerformErase(all, k, first, last, Texts(ops[..n]));
        } else if k < |all| {
          all[k].ContentsLength();
        }
    }
    assert ops[..|ops|] == ops;
  }

  method PerformCreate(all: seq<Storage>, ghost texts: seq<seq<byte>>) returns (more: seq<Storage>)
    requires Reads(all, texts)
    ensures Reads(more, Step(texts, Create)) && AllBlocks(Members(more)) == AllBlocks(Members(all))
    ensures forall s | s in Members(more) :: s in Members(all) || fresh(s)
  {
    hide Text, AllFit, Offset, BlocksOf;
    ghost var family := Members(all);
    var s := new Storage(family);
    more := all + [s];
    OneMoreMember(all, s);
    assert forall i | 0 <= i < |all| :: all[i] in family;
  }

  method PerformCopy(all: seq<Storage>, k: nat, ghost texts: seq<seq<byte>>) returns (more: seq<Storage>)
    requires Reads(all, texts) && k < |all|
    ensures Reads(more, Step(texts, CopyOf(k))) && AllBlocks(Members(more)) == AllBlocks(Members(all))
    ensures forall s | s in Members(more) :: s in Members(all) || fresh(s)
  {
    hide Text, AllFit, Offset, BlocksOf;
    ghost var family := Members(all);
    assert all[k] in family;
    var s := new Storage.Copy(all[k], family);
    more := all + [s];
    OneMoreMember(all, s);
    assert forall i | 0 <= i < |all| :: all[i] in family;
  }

  method PerformInsert(all: seq<Storage>, k: nat, pos: nat, data: seq<byte>, slack: nat, ghost texts: seq<seq<byte>>)
    requires Reads(all, texts) && k < |all| && pos <= all[k].Size()
    modifies Members(all), AllBlocks(Members(all)), DataOf(AllBlocks(Members(all)))
    ensures Reads(all, Step(texts, InsertInto(k, pos, data, slack)))
    ensures forall b | b in AllBlocks(Members(all)) :: b in old(AllBlocks(Members(all))) || (fresh(b) && fresh(b.data))
  {
    hide Text, AllFit, Offset, BlocksOf;
    ghost var family := Members(all);
    assert all[k] in family;
    all[k].ContentsLength();
    all[k].Insert(pos, data, slack, family);
    assert forall i | 0 <= i < |all| :: all[i] in family;
  }

  method PerformErase(all: seq<Storage>, k: nat, first: nat, last: nat, ghost texts: seq<seq<byte>>)
    requires Reads(all, texts) && k < |all| && first <= last <= all[k].Size()
    modifies Members(all)
    ensures Reads(all, Step(texts, EraseFrom(k, first, last)))
    ensures AllBlocks(Members(all)) <= old(AllBlocks(Members(all)))
  {
    hide Text, AllFit, Offset, BlocksOf;
    ghost var family := Members(all);
    assert all[k] in family;
    all[k].ContentsLength();
    NoBytes(all[k].Contents(), first, last);
    all[k].Erase(first, last, family);
    assert forall i | 0 <= i < |all| :: all[i] in family;
  }

  lemma NoBytes(s: seq<byte>, first: nat, last: nat)
    requires first <= last <= |s|
    ensures Splice(s, first, last, []) == s[..first] + s[last..]
  {
  }

  lemma OneMoreMember(all: seq<Storage>, s: Storage)
    ensures Members(all + [s]) == Members(all) + {s}
  {
  }

  /** Only the bytes of the blocks a tree uses matter to it. */
  lemma {:induction false} SameBytes(t: seq<Piece>, m: Bytes, n: Bytes)
    requires AllFit(t, m)
    requires forall i | 0 <= i < |t| :: t[i].value.helper in n && n[t[i].value.helper] == m[t[i].value.helper]
    ensures AllFit(t, n) && Text(t, n) == Text(t, m)
  {
    if t != [] {
      SameBytes(t[..|t| - 1], m, n);
    }
  }

  lemma SplitBlocks(t: seq<Piece>, it: nat, pos: nat)
    requires it < |t| && pos <= t[it].key
    ensures BlocksOf(t[..it] + Halves(t[it], pos) + t[it + 1..]) == BlocksOf(t)
  {
    var u := t[..it] + Halves(t[it], pos) + t[it + 1..];
    forall b | b in BlocksOf(t) ensures b in BlocksOf(u) {
      var i :| 0 <= i < |t| && t[i].value.helper == b;
      assert u[if i <= it then i else i + 1].value.helper == b;
    }
    assert forall i | 0 <= i < |u| :: u[i].value.helper == t[if i <= it then i else i - 1].value.helper;
  }

  lemma SameHelpers(t: seq<Piece>, u: seq<Piece>)
    requires |t| == |u| && forall i | 0 <= i < |t| :: t[i].value.helper == u[i].value.helper
    ensures BlocksOf(t) == BlocksOf(u)
  {
    forall b | b in BlocksOf(t) ensures b in BlocksOf(u) {
      var i :| 0 <= i < |t| && t[i].value.helper == b;
      assert u[i].value.helper == b;
    }
  }

  lemma AddedBlocks(t: seq<Piece>, it: nat, p: Piece)
    requires it <= |t|
    ensures BlocksOf(t[..it] + [p] + t[it..]) == BlocksOf(t) + {p.value.helper}
  {
    var u := t[..it] + [p] + t[it..];
    assert u[it] == p;
    forall b | b in BlocksOf(t) ensures b in BlocksOf(u) {
      var i :| 0 <= i < |t| && t[i].value.helper == b;
      assert u[if i < it then i else i + 1] == t[i];
    }
  }
}
