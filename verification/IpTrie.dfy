/**
 * The binary trie of an IP database: a table of two-way nodes in which every reference
 * above the node count is a leaf.
 */
module IpTrie {
  import opened Bytes

  /** An address, or the first bits of one, most significant bit first. */
  type Bits = seq<bool>

  function Pow2(k: nat): (r: nat)
    ensures r > 0
  {
    if k == 0 then 1 else 2 * Pow2(k - 1)
  }

  /** `ntohl` of the four bytes at `off`, converted to a signed `int`. */
  function ReadInt(data: seq<Byte>, off: nat): int
    requires off + 4 <= |data|
  {
    var u: int := data[off] as int * 0x100_0000 + data[off + 1] as int * 0x1_0000 + data[off + 2] as int * 0x100 +
        data[off + 3];
    if u < 0x8000_0000 then u else u - 0x1_0000_0000
  }

  /** The node table and what follows it, as bytes, and how many nodes it has. */
  datatype Table = Table(data: seq<Byte>, nodeCount: int)
  {
    /** `read_node`; a read outside the data has no value. */
    function Child(node: int, bit: bool): Option<int> {
      var off := node * 8 + if bit then 4 else 0;
      if 0 <= off && off + 4 <= |data| then Some(ReadInt(data, off)) else None
    }

    predicate IsLeaf(node: int) {
      node > nodeCount
    }

    /** Where the bits lead from `node`, stopping early at a leaf. */
    ghost function Walk(node: int, bits: Bits): Option<int>
      decreases |bits|
    {
      if bits == [] || IsLeaf(node) then Some(node)
      else match Child(node, bits[0])
        case Some(next) => Walk(next, bits[1..])
        case None => None
    }

    /** The same, from wherever another walk has led. */
    ghost function WalkOn(from: Option<int>, bits: Bits): Option<int> {
      match from
      case Some(node) => Walk(node, bits)
      case None => None
    }

    lemma {:induction false} WalkInTwo(node: int, a: Bits, b: Bits)
      ensures Walk(node, a + b) == WalkOn(Walk(node, a), b)
      decreases |a|
    {
      if a == [] {
        assert a + b == b;
      } else if !IsLeaf(node) {
        assert (a + b)[1..] == a[1..] + b;
        if Child(node, a[0]).Some? {
          WalkInTwo(Child(node, a[0]).value, a[1..], b);
        }
      }
    }

    /** The constructor's walk, which stops at the node count itself as well. */
    ghost function CacheWalk(node: int, bits: Bits): Option<int>
      decreases |bits|
    {
      if bits == [] || node >= nodeCount then Some(node)
      else match Child(node, bits[0])
        case Some(next) => CacheWalk(next, bits[1..])
        case None => None
    }

    /** The bits it has not used when it stops. */
    ghost function Unused(node: int, bits: Bits): Bits
      decreases |bits|
    {
      if bits == [] || node >= nodeCount || Child(node, bits[0]).None? then bits
      else Unused(Child(node, bits[0]).value, bits[1..])
    }

    /** A walk goes on from where the constructor's stops, with the bits that that has not used. */
    lemma {:induction false} WalkFromCache(node: int, bits: Bits, more: Bits)
      ensures Walk(node, bits + more) == WalkOn(CacheWalk(node, bits), Unused(node, bits) + more)
      ensures var end := CacheWalk(node, bits);
              end.Some? && end.value < nodeCount ==> Unused(node, bits) == []
      decreases |bits|
    {
      if bits == [] || node >= nodeCount {
      } else if Child(node, bits[0]).Some? {
        assert (bits + more)[1..] == bits[1..] + more;
        WalkFromCache(Child(node, bits[0]).value, bits[1..], more);
      }
    }
  }

  // ---- addresses ----

  /** Bit `i` of an address, as `search` extracts it. */
  predicate BitAt(ip: seq<Byte>, i: nat)
    requires i < 8 * |ip|
  {
    ip[i / 8] / Pow2(7 - i % 8) % 2 == 1
  }

  function BitsOf(ip: seq<Byte>): (r: Bits)
    ensures |r| == 8 * |ip|
    ensures forall i :: 0 <= i < |r| ==> r[i] == BitAt(ip, i)
  {
    seq(8 * |ip|, i requires 0 <= i < 8 * |ip| => BitAt(ip, i))
  }

  /** The IPv4-mapped IPv6 address of section 2.5.5.2 of RFC 4291. */
  function Mapped(ip4: seq<Byte>): (r: seq<Byte>)
    requires |ip4| == 4
    ensures |r| == 16
  {
    [0, 0, 0, 0, 0, 0, 0, 0, 0, 0, 0xFF, 0xFF] + ip4
  }

  /** The first 96 bits of every IPv4-mapped address. */
  function MappedPrefix(): (r: Bits)
    ensures |r| == 96 && forall i :: 0 <= i < 96 ==> r[i] == (i >= 80)
  {
    seq(96, i => i >= 80)
  }

  lemma MappedBits(ip4: seq<Byte>)
    requires |ip4| == 4
    ensures BitsOf(Mapped(ip4)) == MappedPrefix() + BitsOf(ip4)
  {
    var m := Mapped(ip4);
    forall i | 0 <= i < 128 ensures BitAt(m, i) == (MappedPrefix() + BitsOf(ip4))[i] {
      if i < 96 {
        ConstantByteBits(7 - i % 8);
      } else {
        assert i / 8 - 12 == (i - 96) / 8 && i % 8 == (i - 96) % 8;
      }
    }
  }

  lemma ConstantByteBits(k: nat)
    requires k < 8
    ensures 0 / Pow2(k) % 2 == 0 && 0xFF / Pow2(k) % 2 == 1
  {
    assert Pow2(1) == 2 && Pow2(2) == 4 && Pow2(3) == 8 && Pow2(4) == 16;
    assert Pow2(5) == 32 && Pow2(6) == 64 && Pow2(7) == 128;
  }

  // ---- the reader ----

  class Reader {
    const table: Table
    /** The cached node, unless the constructor reads outside the data. */
    const v4Offset: Option<int>

    ghost predicate Valid() {
      v4Offset == table.CacheWalk(0, MappedPrefix())
    }

    /** The end of the constructor: walk 80 zero bits and 16 one bits from the root, once. */
    constructor (table: Table)
      ensures this.table == table && Valid()
    {
      var node := Some(0);
      var i := 0;
      assert MappedPrefix()[0..] == MappedPrefix();
      while i < 96 && node.Some? && node.value < table.nodeCount
        invariant 0 <= i <= 96
        invariant table.CacheWalk(0, MappedPrefix()) ==
                  if node.Some? then table.CacheWalk(node.value, MappedPrefix()[i..]) else None
        decreases 96 - i
      {
        assert MappedPrefix()[i..][1..] == MappedPrefix()[i + 1..];
        if i >= 80 {
          node := table.Child(node.value, true);
        } else {
          node := table.Child(node.value, false);
        }
        i := i + 1;
      }
      this.table := table;
      v4Offset := node;
    }

    /** `search`: an IPv4 address starts at the cached node, an IPv6 address at the root. */
    method Search(ip: seq<Byte>, bitCount: nat) returns (r: Option<int>)
      requires Valid() && (bitCount == 32 || bitCount == 128) && bitCount == 8 * |ip|
      ensures r == if bitCount == 32 then Cached(table, ip) else table.Walk(0, BitsOf(ip))
      ensures bitCount == 32 ==> (r == Full(table, ip) <==> CacheServes(table, ip))
      ensures bitCount == 32 && !StopsShort(table) ==> r == Full(table, ip)
    {
      hide Full, CacheServes, StopsShort, MappedPrefix, BitsOf;
      var node := Some(0);
      if bitCount == 32 {
        node := v4Offset;
        CachedSearchIff(table, ip);
        if !StopsShort(table) {
          GuardServes(table, ip);
        }
      }
      ghost var start := node;
      assert BitsOf(ip)[0..] == BitsOf(ip);
      var i := 0;
      while i < bitCount && node.Some?
        invariant 0 <= i <= bitCount
        invariant table.WalkOn(start, BitsOf(ip)) == table.WalkOn(node, BitsOf(ip)[i..])
      {
        if node.value > table.nodeCount {
          break;
        }
        assert BitsOf(ip)[i..][1..] == BitsOf(ip)[i + 1..];
        node := table.Child(node.value, ip[i / 8] / Pow2(7 - i % 8) % 2 == 1);
        i := i + 1;
      }
      return node;
    }
  }

  /** Searching an IPv4 address from the cached node, and its mapped address from the root. */
  ghost function Cached(t: Table, ip4: seq<Byte>): Option<int> {
    t.WalkOn(t.CacheWalk(0, MappedPrefix()), BitsOf(ip4))
  }

  ghost function Full(t: Table, ip4: seq<Byte>): Option<int>
    requires |ip4| == 4
  {
    t.Walk(0, BitsOf(Mapped(ip4)))
  }

  /** The constructor's walk meets the node count, which is neither a node nor a leaf, before its last bit. */
  ghost predicate StopsShort(t: Table) {
    t.CacheWalk(0, MappedPrefix()) == Some(t.nodeCount) && t.Unused(0, MappedPrefix()) != []
  }

  /** It does not; or what follows the table makes up for the bits that were left out. */
  ghost predicate CacheServes(t: Table, ip4: seq<Byte>) {
    StopsShort(t) ==>
      t.Walk(t.nodeCount, BitsOf(ip4)) == t.Walk(t.nodeCount, t.Unused(0, MappedPrefix()) + BitsOf(ip4))
  }

  /** In any table, the cached node serves for the full walk exactly then. */
  lemma CachedSearchIff(t: Table, ip4: seq<Byte>)
    requires |ip4| == 4
    ensures Cached(t, ip4) == Full(t, ip4) <==> CacheServes(t, ip4)
  {
    hide BitsOf, Mapped;
    MappedBits(ip4);
    var bits := BitsOf(ip4);
    t.WalkFromCache(0, MappedPrefix(), bits);
    assert [] + bits == bits;
  }

  /** A table that the constructor's walk does not stop short in: every address gets the same answer. */
  lemma GuardServes(t: Table, ip4: seq<Byte>)
    requires |ip4| == 4 && !StopsShort(t)
    ensures Cached(t, ip4) == Full(t, ip4)
  {
    CachedSearchIff(t, ip4);
  }

  /** Such is every table with nodes none of which leads to the node count. */
  lemma NeverStopsShort(t: Table)
    requires t.nodeCount != 0 && forall node, bit :: t.Child(node, bit) != Some(t.nodeCount)
    ensures !StopsShort(t)
  {
    MissesTheCount(t, 0, MappedPrefix());
  }

  lemma {:induction false} MissesTheCount(t: Table, node: int, bits: Bits)
    requires node != t.nodeCount && forall node, bit :: t.Child(node, bit) != Some(t.nodeCount)
    ensures t.CacheWalk(node, bits) != Some(t.nodeCount)
    decreases |bits|
  {
    if bits != [] && t.Child(node, bits[0]).Some? {
      MissesTheCount(t, t.Child(node, bits[0]).value, bits[1..]);
    }
  }

  /** The same nodes, whatever the data after them. */
  ghost predicate SameNodes(t: Table, u: Table) {
    && u.nodeCount == t.nodeCount && 0 <= 8 * t.nodeCount <= |t.data| && 8 * t.nodeCount <= |u.data|
    && u.data[..8 * t.nodeCount] == t.data[..8 * t.nodeCount]
  }

  lemma SameChild(t: Table, u: Table, node: int, bit: bool)
    requires SameNodes(t, u) && node < t.nodeCount
    ensures t.Child(node, bit) == u.Child(node, bit)
  {
    var off := node * 8 + if bit then 4 else 0;
    var n := 8 * t.nodeCount;
    if off >= 0 {
      forall i | off <= i < off + 4 ensures t.data[i] == u.data[i] {
        assert t.data[i] == t.data[..n][i] && u.data[i] == u.data[..n][i];
      }
    }
  }

  lemma {:induction false} SameCacheWalk(t: Table, u: Table, node: int, bits: Bits)
    requires SameNodes(t, u)
    ensures t.CacheWalk(node, bits) == u.CacheWalk(node, bits) && t.Unused(node, bits) == u.Unused(node, bits)
    decreases |bits|
  {
    if bits != [] && node < t.nodeCount {
      SameChild(t, u, node, bits[0]);
      if t.Child(node, bits[0]).Some? {
        SameCacheWalk(t, u, t.Child(node, bits[0]).value, bits[1..]);
      }
    }
  }

  function IntBytes(n: nat): (r: seq<Byte>)
    requires n < 0x8000_0000
    ensures |r| == 4
  {
    var a, b, c := n / 0x100, n / 0x100 / 0x100, n / 0x100 / 0x100 / 0x100;
    [c, b % 0x100, a % 0x100, n % 0x100]
  }

  /** The same nodes, and after them two different leaves. */
  function WithLeaves(t: Table): Table
    requires 0 <= 8 * t.nodeCount <= |t.data| && t.nodeCount + 2 < 0x8000_0000
  {
    Table(t.data[..8 * t.nodeCount] + (IntBytes(t.nodeCount + 1) + IntBytes(t.nodeCount + 2)), t.nodeCount)
  }

  lemma LeavesAfter(t: Table)
    requires 0 <= 8 * t.nodeCount <= |t.data| && t.nodeCount + 2 < 0x8000_0000
    ensures SameNodes(t, WithLeaves(t))
    ensures forall bit :: WithLeaves(t).Child(t.nodeCount, bit) == Some(t.nodeCount + if bit then 2 else 1)
  {
    hide IntBytes, ReadInt;
    var nodes, one, two := t.data[..8 * t.nodeCount], IntBytes(t.nodeCount + 1), IntBytes(t.nodeCount + 2);
    assert (nodes + (one + two))[..|nodes|] == nodes;
    BytesRead(nodes, t.nodeCount + 1, two);
    BytesRead(nodes + one, t.nodeCount + 2, []);
    assert nodes + one + (two + []) == nodes + (one + two);
  }

  lemma BytesRead(before: seq<Byte>, n: nat, after: seq<Byte>)
    requires n < 0x8000_0000
    ensures ReadInt(before + (IntBytes(n) + after), |before|) == n
  {
    hide IntBytes;
    var data, k, four := before + (IntBytes(n) + after), |before|, IntBytes(n);
    assert data[k] == four[0] && data[k + 1] == four[1] && data[k + 2] == four[2] && data[k + 3] == four[3];
    IntBytesAdd(n);
  }

  lemma IntBytesAdd(n: nat)
    requires n < 0x8000_0000
    ensures var four := IntBytes(n);
            four[0] as int * 0x100_0000 + four[1] as int * 0x1_0000 + four[2] as int * 0x100 + four[3] == n
  {
    var a, b := n / 0x100, n / 0x100 / 0x100;
    assert b == b / 0x100 * 0x100 + b % 0x100 && a == b * 0x100 + a % 0x100 && n == a * 0x100 + n % 0x100;
  }

  /** All tables of these nodes give every address the same answer from the cached node as from the root. */
  ghost predicate AlwaysServes(t: Table) {
    forall u, ip4 :: SameNodes(t, u) && |ip4| == 4 ==> Cached(u, ip4) == Full(u, ip4)
  }

  /** What the nodes alone decide: the cached node serves whatever follows them iff the walk does not stop short. */
  lemma ServesIff(t: Table)
    requires 0 <= 8 * t.nodeCount <= |t.data| && t.nodeCount + 2 < 0x8000_0000
    ensures AlwaysServes(t) <==> !StopsShort(t)
  {
    hide Cached, Full, BitsOf, WithLeaves;
    if StopsShort(t) {
      LeavesAfter(t);
      var ip4 := LeftOut(t);
      assert SameNodes(t, WithLeaves(t)) && Cached(WithLeaves(t), ip4) != Full(WithLeaves(t), ip4);
    } else {
      forall u, ip4 | SameNodes(t, u) && |ip4| == 4 ensures Cached(u, ip4) == Full(u, ip4) {
        SameCacheWalk(t, u, 0, MappedPrefix());
        GuardServes(u, ip4);
      }
    }
  }

  /** An address whose first bit is not the first of those left out. */
  lemma LeftOut(t: Table) returns (ip4: seq<Byte>)
    requires 0 <= 8 * t.nodeCount <= |t.data| && t.nodeCount + 2 < 0x8000_0000 && StopsShort(t)
    ensures |ip4| == 4 && Cached(WithLeaves(t), ip4) != Full(WithLeaves(t), ip4)
  {
    hide BitsOf, Mapped, WithLeaves;
    var u, n, left := WithLeaves(t), t.nodeCount, t.Unused(0, MappedPrefix());
    LeavesAfter(t);
    SameCacheWalk(t, u, 0, MappedPrefix());
    ip4 := [if left[0] then 0 else 128, 0, 0, 0];
    var bits := BitsOf(ip4);
    FirstBit(ip4);
    MappedBits(ip4);
    u.WalkFromCache(0, MappedPrefix(), bits);
    LeafNext(u, n, bits);
    LeafNext(u, n, left + bits);
  }

  lemma FirstBit(ip4: seq<Byte>)
    requires |ip4| == 4
    ensures BitsOf(ip4)[0] == (ip4[0] >= 128)
  {
    assert Pow2(1) == 2 && Pow2(2) == 4 && Pow2(3) == 8 && Pow2(4) == 16;
    assert Pow2(5) == 32 && Pow2(6) == 64 && Pow2(7) == 128;
    assert BitsOf(ip4)[0] == BitAt(ip4, 0);
  }

  lemma LeafNext(u: Table, node: int, bits: Bits)
    requires bits != [] && !u.IsLeaf(node)
    requires u.Child(node, bits[0]).Some? && u.IsLeaf(u.Child(node, bits[0]).value)
    ensures u.Walk(node, bits) == u.Child(node, bits[0])
  {
    var next := u.Child(node, bits[0]).value;
    assert u.Walk(next, bits[1..]) == Some(next);
  }

  /** A table of one node that leads to the node count on both sides, and some data after it. */
  const SHORT_TABLE := Table([0, 0, 0, 1, 0, 0, 0, 1, 0, 0, 0, 2, 0, 0, 0, 3], 1)

  /** With it, half of the IPv4 addresses get another answer. */
  lemma CacheFails(ip4: seq<Byte>)
    requires |ip4| == 4 && BitsOf(ip4)[0]
    ensures StopsShort(SHORT_TABLE) && Cached(SHORT_TABLE, ip4) == Some(3) && Full(SHORT_TABLE, ip4) == Some(2)
  {
    hide BitsOf, Mapped;
    var t, bits, p := SHORT_TABLE, BitsOf(ip4), MappedPrefix()[1..];
    assert t.Child(0, false) == Some(1) && t.Child(1, false) == Some(2) && t.Child(1, true) == Some(3);
    assert !MappedPrefix()[0] && !p[0];
    assert t.CacheWalk(1, p) == Some(1) && t.Unused(1, p) == p;
    assert t.CacheWalk(0, MappedPrefix()) == Some(1) && t.Unused(0, MappedPrefix()) == p;
    t.WalkFromCache(0, MappedPrefix(), bits);
    MappedBits(ip4);
    assert t.Walk(3, bits[1..]) == Some(3) && t.Walk(2, (p + bits)[1..]) == Some(2);
  }

  // ---- the partition of the address space ----

  /** The part of the table that addresses of a given length can see, unfolded into a tree. */
  datatype Trie = Hit(leaf: int) | Miss | Fork(zero: Trie, one: Trie)

  ghost function Unfold(t: Table, node: int, n: nat): Trie
    decreases n, 0
  {
    if t.IsLeaf(node) then Hit(node)
    else if n == 0 then Miss
    else Fork(UnfoldChild(t, node, false, n - 1), UnfoldChild(t, node, true, n - 1))
  }

  ghost function UnfoldChild(t: Table, node: int, bit: bool, n: nat): Trie
    decreases n, 1
  {
    match t.Child(node, bit)
    case Some(next) => Unfold(t, next, n)
    case None => Miss
  }

  /** The leaf that a search finds, if it finds one. */
  ghost function Found(t: Table, node: int, bits: Bits): Option<int> {
    match t.Walk(node, bits)
    case Some(end) => if t.IsLeaf(end) then Some(end) else None
    case None => None
  }

  ghost predicate Fits(trie: Trie, n: nat) {
    match trie
    case Hit(_) => true
    case Miss => true
    case Fork(zero, one) => n > 0 && Fits(zero, n - 1) && Fits(one, n - 1)
  }

  function Branch(trie: Trie, bit: bool): Trie
    requires trie.Fork?
  {
    if bit then trie.one else trie.zero
  }

  function Lookup(trie: Trie, bits: Bits): Option<int> {
    match trie
    case Hit(leaf) => Some(leaf)
    case Miss => None
    case Fork(_, _) => if bits == [] then None else Lookup(Branch(trie, bits[0]), bits[1..])
  }

  /** Searching the table is looking up in its unfolding, which says whether a leaf was reached. */
  lemma {:induction false} SearchIsLookup(t: Table, node: int, bits: Bits)
    ensures Lookup(Unfold(t, node, |bits|), bits) == Found(t, node, bits)
    decreases |bits|
  {
    if !t.IsLeaf(node) && bits != [] {
      var next := t.Child(node, bits[0]);
      if next.Some? {
        SearchIsLookup(t, next.value, bits[1..]);
      }
    }
  }

  lemma {:induction false} UnfoldFits(t: Table, node: int, n: nat)
    ensures Fits(Unfold(t, node, n), n)
    decreases n
  {
    if !t.IsLeaf(node) && n > 0 {
      var zero, one := t.Child(node, false), t.Child(node, true);
      if zero.Some? {
        UnfoldFits(t, zero.value, n - 1);
      }
      if one.Some? {
        UnfoldFits(t, one.value, n - 1);
      }
    }
  }

  /** A leaf and the bits that lead to it: it answers for every address they begin. */
  datatype Block = Block(prefix: Bits, leaf: int)

  function Under(bit: bool, blocks: seq<Block>): (r: seq<Block>)
    ensures |r| == |blocks|
    ensures forall i :: 0 <= i < |r| ==> r[i] == Block([bit] + blocks[i].prefix, blocks[i].leaf)
  {
    seq(|blocks|, i requires 0 <= i < |blocks| => Block([bit] + blocks[i].prefix, blocks[i].leaf))
  }

  /** The blocks of a trie, in address order. */
  function Blocks(trie: Trie): seq<Block> {
    match trie
    case Hit(leaf) => [Block([], leaf)]
    case Miss => []
    case Fork(zero, one) => Under(false, Blocks(zero)) + Under(true, Blocks(one))
  }

  lemma UnderIn(bit: bool, blocks: seq<Block>, b: Block)
    ensures b in Under(bit, blocks) <==> b.prefix != [] && b.prefix[0] == bit && Block(b.prefix[1..], b.leaf) in blocks
  {
    if b in Under(bit, blocks) {
      var i :| 0 <= i < |blocks| && Under(bit, blocks)[i] == b;
      assert b.prefix[1..] == blocks[i].prefix;
    }
    if b.prefix != [] && b.prefix[0] == bit && Block(b.prefix[1..], b.leaf) in blocks {
      var i :| 0 <= i < |blocks| && blocks[i] == Block(b.prefix[1..], b.leaf);
      assert [bit] + b.prefix[1..] == b.prefix;
      assert b == Under(bit, blocks)[i];
    }
  }

  lemma {:induction false} BlockBelow(trie: Trie, b: Block)
    requires trie.Fork?
    ensures b in Blocks(trie) <==>
            b.prefix != [] && Block(b.prefix[1..], b.leaf) in Blocks(Branch(trie, b.prefix[0]))
  {
    UnderIn(false, Blocks(trie.zero), b);
    UnderIn(true, Blocks(trie.one), b);
  }

  /** Every address of a block finds the block's leaf. */
  lemma {:induction false} LookupIsConstantOnBlocks(trie: Trie, bits: Bits, b: Block)
    requires Fits(trie, |bits|) && b in Blocks(trie) && b.prefix <= bits
    ensures Lookup(trie, bits) == Some(b.leaf)
    decreases trie
  {
    if trie.Fork? {
      BlockBelow(trie, b);
      LookupIsConstantOnBlocks(Branch(trie, bits[0]), bits[1..], Block(b.prefix[1..], b.leaf));
    }
  }

  /** Conversely, an address that finds a leaf lies in one of its blocks. */
  lemma {:induction false} FoundLeafHasABlock(trie: Trie, bits: Bits) returns (b: Block)
    requires Fits(trie, |bits|) && Lookup(trie, bits).Some?
    ensures b in Blocks(trie) && b.prefix <= bits && Lookup(trie, bits) == Some(b.leaf)
    decreases trie
  {
    if trie.Hit? {
      b := Block([], trie.leaf);
    } else {
      var m := FoundLeafHasABlock(Branch(trie, bits[0]), bits[1..]);
      b := Block([bits[0]] + m.prefix, m.leaf);
      assert b.prefix[1..] == m.prefix;
      BlockBelow(trie, b);
    }
  }

  /** No address lies in two blocks. */
  lemma {:induction false} BlocksAreDisjoint(trie: Trie, bits: Bits, b: Block, c: Block)
    requires Fits(trie, |bits|) && b in Blocks(trie) && c in Blocks(trie) && b.prefix <= bits && c.prefix <= bits
    ensures b == c
    decreases trie
  {
    hide *;
    if !trie.Fork? {
      OneBlockOnly(trie, b);
      OneBlockOnly(trie, c);
    } else {
      FitsBranch(trie, |bits|);
      BlockBelow(trie, b);
      BlockBelow(trie, c);
      PrefixTail(b.prefix, bits);
      PrefixTail(c.prefix, bits);
      BlocksAreDisjoint(Branch(trie, bits[0]), bits[1..], Block(b.prefix[1..], b.leaf), Block(c.prefix[1..], c.leaf));
    }
  }

  lemma OneBlockOnly(trie: Trie, b: Block)
    requires !trie.Fork? && b in Blocks(trie)
    ensures trie.Hit? && b == Block([], trie.leaf)
  {
  }

  lemma PrefixTail<T>(p: seq<T>, s: seq<T>)
    requires p != [] && p <= s
    ensures s != [] && p[0] == s[0] && p[1..] <= s[1..] && p == [p[0]] + p[1..]
  {
  }

  lemma FitsBranch(trie: Trie, n: nat)
    requires trie.Fork? && Fits(trie, n)
    ensures n > 0 && forall bit :: Fits(Branch(trie, bit), n - 1) && Branch(trie, bit) < trie
  {
  }

  // ---- sizes and positions ----

  /** How many `n`-bit addresses begin with `prefix`. */
  function Size(prefix: Bits, n: nat): nat {
    if |prefix| <= n then Pow2(n - |prefix|) else 0
  }

  function Total(blocks: seq<Block>, n: nat): nat {
    if blocks == [] then 0 else Size(blocks[0].prefix, n) + Total(blocks[1..], n)
  }

  lemma {:induction false} TotalOfBoth(a: seq<Block>, b: seq<Block>, n: nat)
    ensures Total(a + b, n) == Total(a, n) + Total(b, n)
    decreases |a|
  {
    if a == [] {
      assert a + b == b;
    } else {
      assert (a + b)[1..] == a[1..] + b;
      TotalOfBoth(a[1..], b, n);
    }
  }

  lemma {:induction false} TotalUnder(bit: bool, blocks: seq<Block>, n: nat)
    requires n > 0
    ensures Total(Under(bit, blocks), n) == Total(blocks, n - 1)
    decreases |blocks|
  {
    if blocks != [] {
      assert Under(bit, blocks)[1..] == Under(bit, blocks[1..]);
      TotalUnder(bit, blocks[1..], n);
    }
  }

  lemma TotalOfFork(trie: Trie, n: nat)
    requires trie.Fork? && n > 0
    ensures Total(Blocks(trie), n) == Total(Blocks(trie.zero), n - 1) + Total(Blocks(trie.one), n - 1)
  {
    TotalUnder(false, Blocks(trie.zero), n);
    TotalUnder(true, Blocks(trie.one), n);
    TotalOfBoth(Under(false, Blocks(trie.zero)), Under(true, Blocks(trie.one)), n);
  }

  ghost predicate Complete(trie: Trie, n: nat) {
    forall bits: Bits :: |bits| == n ==> Lookup(trie, bits).Some?
  }

  /** The blocks fill the whole space of `n`-bit addresses iff every address finds a leaf. */
  lemma {:induction false} BlocksFillTheSpace(trie: Trie, n: nat)
    requires Fits(trie, n)
    ensures Total(Blocks(trie), n) <= Pow2(n)
    ensures Total(Blocks(trie), n) == Pow2(n) <==> Complete(trie, n)
    decreases trie
  {
    hide *;
    match trie
    case Hit(_) => OneLeafFills(trie, n);
    case Miss => OneLeafFills(trie, n);
    case Fork(zero, one) =>
      FitsBelow(trie, n);
      BlocksFillTheSpace(zero, n - 1);
      BlocksFillTheSpace(one, n - 1);
      TotalOfFork(trie, n);
      CompleteBelow(trie, n);
  }

  lemma OneLeafFills(trie: Trie, n: nat)
    requires !trie.Fork? && Fits(trie, n)
    ensures Total(Blocks(trie), n) <= Pow2(n)
    ensures Total(Blocks(trie), n) == Pow2(n) <==> Complete(trie, n)
  {
    if trie.Miss? {
      var bits: Bits := seq(n, _ => false);
      assert Lookup(trie, bits).None?;
    }
  }

  lemma CompleteBelow(trie: Trie, n: nat)
    requires trie.Fork? && n > 0
    ensures Complete(trie, n) <==> Complete(trie.zero, n - 1) && Complete(trie.one, n - 1)
  {
    if Complete(trie, n) {
      forall bit: bool, bits: Bits | |bits| == n - 1 ensures Lookup(Branch(trie, bit), bits).Some? {
        assert ([bit] + bits)[1..] == bits;
        assert Lookup(trie, [bit] + bits).Some?;
      }
      assert Branch(trie, false) == trie.zero && Branch(trie, true) == trie.one;
    }
    if Complete(trie.zero, n - 1) && Complete(trie.one, n - 1) {
      forall bits: Bits | |bits| == n ensures Lookup(trie, bits).Some? {
        assert Lookup(Branch(trie, bits[0]), bits[1..]).Some?;
      }
    }
  }

  /** An address as a number. */
  function Number(bits: Bits): nat {
    if bits == [] then 0 else (if bits[0] then Pow2(|bits| - 1) else 0) + Number(bits[1..])
  }

  lemma {:induction false} NumberInTwo(a: Bits, b: Bits)
    ensures Number(a + b) == Number(a) * Pow2(|b|) + Number(b)
    decreases |a|
  {
    if a == [] {
      assert a + b == b;
    } else {
      assert (a + b)[1..] == a[1..] + b;
      NumberInTwo(a[1..], b);
      PowSum(|a| - 1, |b|);
      Distribute(if a[0] then Pow2(|a| - 1) else 0, Number(a[1..]), Pow2(|b|));
    }
  }

  /** The bytes of an address as one number, the first one highest: network order. */
  function BytesNumber(ip: seq<Byte>): nat
    decreases |ip|
  {
    if ip == [] then 0 else BytesNumber(ip[..|ip| - 1]) * 256 + ip[|ip| - 1]
  }

  /** A node is eight bytes: where 0 leads, and then where 1 does, each a signed number in network order. */
  lemma ChildIsItsNumber(t: Table, node: nat, bit: bool)
    ensures t.Child(node, bit).Some? <==> 8 * node + (if bit then 8 else 4) <= |t.data|
    ensures t.Child(node, bit).Some? ==>
              var at, n := 8 * node + (if bit then 4 else 0), t.Child(node, bit).value;
              -0x8000_0000 <= n < 0x8000_0000 &&
              BytesNumber(t.data[at..at + 4]) == if n < 0 then n + 0x1_0000_0000 else n
  {
    if t.Child(node, bit).Some? {
      var at := 8 * node + if bit then 4 else 0;
      FourBytes(t.data[at..at + 4]);
    }
  }

  lemma FourBytes(b: seq<Byte>)
    requires |b| == 4
    ensures BytesNumber(b) == b[0] as int * 0x100_0000 + b[1] as int * 0x1_0000 + b[2] as int * 0x100 + b[3]
  {
    assert b[..3][..2] == b[..2] && b[..2][..1] == b[..1] && b[..1][..0] == [];
    assert BytesNumber(b[..1]) == b[0] as int;
    assert BytesNumber(b[..2]) == BytesNumber(b[..1]) * 256 + b[1];
    assert BytesNumber(b[..3]) == BytesNumber(b[..2]) * 256 + b[2];
  }

  /** The bits that a search goes by are those of that number, highest first. */
  lemma {:induction false} BitsAreTheNumber(ip: seq<Byte>)
    ensures Number(BitsOf(ip)) == BytesNumber(ip)
    decreases |ip|
  {
    if ip != [] {
      var init, last := ip[..|ip| - 1], ip[|ip| - 1];
      BitsAreTheNumber(init);
      BitsInTwo(init, last);
      hide BitsOf;
      NumberInTwo(BitsOf(init), BitsOf([last]));
      ByteNumber(last);
      SmallPowers();
      assert init + [last] == ip;
    }
  }

  lemma BitsInTwo(init: seq<Byte>, last: Byte)
    ensures BitsOf(init + [last]) == BitsOf(init) + BitsOf([last])
    ensures |BitsOf([last])| == 8
  {
    forall i | 0 <= i < 8 * |init| + 8 ensures BitAt(init + [last], i) == (BitsOf(init) + BitsOf([last]))[i] {
      if i >= 8 * |init| {
        assert (i - 8 * |init|) / 8 == 0 && i / 8 == |init| && i % 8 == i - 8 * |init|;
      }
    }
  }

  lemma SmallPowers()
    ensures Pow2(0) == 1 && Pow2(1) == 2 && Pow2(2) == 4 && Pow2(3) == 8 && Pow2(4) == 16
    ensures Pow2(5) == 32 && Pow2(6) == 64 && Pow2(7) == 128 && Pow2(8) == 256
  {
  }

  lemma ByteNumber(b: Byte)
    ensures Number(BitsOf([b])) == b
  {
    hide *;
    SmallPowers();
    var bits := BitsOf([b]);
    ByteBit(b, 0, 128);
    ByteBit(b, 1, 64);
    ByteBit(b, 2, 32);
    ByteBit(b, 3, 16);
    ByteBit(b, 4, 8);
    ByteBit(b, 5, 4);
    ByteBit(b, 6, 2);
    ByteBit(b, 7, 1);
    EightBits(bits);
    Halves(b);
  }

  /** Bit `i` of a byte counts for `d`. */
  lemma ByteBit(b: Byte, i: nat, d: nat)
    requires i < 8 && d > 0 && Pow2(7 - i) == d
    ensures (if BitsOf([b])[i] then d else 0) == b / d % 2 * d
  {
    assert BitsOf([b])[i] == BitAt([b], i) == (b / d % 2 == 1);
    if b / d % 2 == 0 {
      assert b / d % 2 * d == 0;
    }
  }

  lemma EightBits(bits: Bits)
    requires |bits| == 8
    ensures Number(bits) == (if bits[0] then 128 else 0) + (if bits[1] then 64 else 0) + (if bits[2] then 32 else 0)
                            + (if bits[3] then 16 else 0) + (if bits[4] then 8 else 0) + (if bits[5] then 4 else 0)
                            + (if bits[6] then 2 else 0) + if bits[7] then 1 else 0
  {
    EmptyNumber();
    hide *;
    HighBits(bits);
    LowBits(bits);
    assert bits[8..] == [] && bits[0..] == bits;
  }

  lemma HighBits(bits: Bits)
    requires |bits| == 8
    ensures Number(bits[0..]) == (if bits[0] then 128 else 0) + (if bits[1] then 64 else 0)
                                 + (if bits[2] then 32 else 0) + (if bits[3] then 16 else 0) + Number(bits[4..])
  {
    hide *;
    SmallPowers();
    OneBit(bits, 0);
    OneBit(bits, 1);
    OneBit(bits, 2);
    OneBit(bits, 3);
  }

  lemma LowBits(bits: Bits)
    requires |bits| == 8
    ensures Number(bits[4..]) == (if bits[4] then 8 else 0) + (if bits[5] then 4 else 0)
                                 + (if bits[6] then 2 else 0) + (if bits[7] then 1 else 0) + Number(bits[8..])
  {
    hide *;
    SmallPowers();
    OneBit(bits, 4);
    OneBit(bits, 5);
    OneBit(bits, 6);
    OneBit(bits, 7);
  }

  lemma EmptyNumber()
    ensures Number([]) == 0
  {
  }

  lemma OneBit(bits: Bits, i: nat)
    requires i < |bits|
    ensures Number(bits[i..]) == (if bits[i] then Pow2(|bits| - i - 1) else 0) + Number(bits[i + 1..])
  {
    assert bits[i..][1..] == bits[i + 1..];
  }

  lemma Halves(b: Byte)
    ensures b == b / 128 % 2 * 128 + b / 64 % 2 * 64 + b / 32 % 2 * 32 + b / 16 % 2 * 16 + b / 8 % 2 * 8
                 + b / 4 % 2 * 4 + b / 2 % 2 * 2 + b % 2
  {
    var n: nat := b;
    assert n / 2 / 2 == n / 4 && n / 4 / 2 == n / 8 && n / 8 / 2 == n / 16 && n / 16 / 2 == n / 32;
    assert n / 32 / 2 == n / 64 && n / 64 / 2 == n / 128 && n / 128 / 2 == 0;
  }

  lemma {:induction false} NumberBound(bits: Bits)
    ensures Number(bits) < Pow2(|bits|)
    decreases |bits|
  {
    if bits != [] {
      NumberBound(bits[1..]);
    }
  }

  /** The first address of a block, which is a multiple of the block's size. */
  function Start(prefix: Bits, n: nat): nat {
    Number(prefix) * Size(prefix, n)
  }

  lemma {:induction false} PowSum(a: nat, b: nat)
    ensures Pow2(a) * Pow2(b) == Pow2(a + b)
  {
    if a > 0 {
      PowSum(a - 1, b);
      assert Pow2(a) == 2 * Pow2(a - 1) && Pow2(a + b) == 2 * Pow2(a - 1 + b);
      hide Pow2;
      TwiceTimes(Pow2(a - 1), Pow2(b));
    }
  }

  lemma TwiceTimes(x: nat, y: nat)
    ensures 2 * x * y == 2 * (x * y)
  {
  }

  lemma Distribute(x: nat, y: nat, z: nat)
    ensures (x + y) * z == x * z + y * z
  {
  }

  lemma StartBelow(prefix: Bits, n: nat)
    requires 0 < |prefix| <= n
    ensures Start(prefix, n) == (if prefix[0] then Pow2(n - 1) else 0) + Start(prefix[1..], n - 1)
  {
    PowSum(|prefix| - 1, n - |prefix|);
    Distribute(if prefix[0] then Pow2(|prefix| - 1) else 0, Number(prefix[1..]), Pow2(n - |prefix|));
  }

  lemma {:induction false} EndBound(prefix: Bits, n: nat)
    requires |prefix| <= n
    ensures Start(prefix, n) + Size(prefix, n) <= Pow2(n)
    decreases |prefix|
  {
    if prefix != [] {
      StartBelow(prefix, n);
      EndBound(prefix[1..], n - 1);
    }
  }

  /** A block is the interval of addresses from its start up to its start plus its size. */
  lemma {:induction false} BlockIsInterval(prefix: Bits, bits: Bits)
    requires |prefix| <= |bits|
    ensures prefix <= bits <==> Start(prefix, |bits|) <= Number(bits) < Start(prefix, |bits|) + Size(prefix, |bits|)
    decreases |prefix|
  {
    NumberBound(bits);
    if prefix != [] {
      BlockIsInterval(prefix[1..], bits[1..]);
      StartBelow(prefix, |bits|);
      NumberBound(bits[1..]);
      EndBound(prefix[1..], |bits| - 1);
      assert prefix <= bits <==> prefix[0] == bits[0] && prefix[1..] <= bits[1..];
    }
  }

  lemma {:induction false} PrefixesFit(trie: Trie, n: nat, i: nat)
    requires Fits(trie, n) && i < |Blocks(trie)|
    ensures |Blocks(trie)[i].prefix| <= n
    decreases trie
  {
    if trie.Fork? {
      var k := |Blocks(trie.zero)|;
      if i < k {
        PrefixesFit(trie.zero, n - 1, i);
      } else {
        PrefixesFit(trie.one, n - 1, i - k);
      }
    }
  }

  lemma FitsBelow(trie: Trie, n: nat)
    requires trie.Fork? && Fits(trie, n)
    ensures n > 0 && Fits(trie.zero, n - 1) && Fits(trie.one, n - 1) && Pow2(n) == 2 * Pow2(n - 1)
  {
  }

  /** Where a block starts, and how much space the blocks before it take. */
  ghost function StartOf(trie: Trie, n: nat, i: nat): nat
    requires i < |Blocks(trie)|
  {
    Start(Blocks(trie)[i].prefix, n)
  }

  ghost function Before(trie: Trie, n: nat, i: nat): nat
    requires i < |Blocks(trie)|
  {
    Total(Blocks(trie)[..i], n)
  }

  /** When the blocks fill the space they tile it: each one starts where those before it end. */
  lemma {:induction false} BlocksTileTheSpace(trie: Trie, n: nat, i: nat)
    requires Fits(trie, n) && Complete(trie, n) && i < |Blocks(trie)|
    ensures StartOf(trie, n, i) == Before(trie, n, i)
    decreases trie
  {
    hide *;
    if !trie.Fork? {
      OneBlock(trie, n, i);
    } else {
      FitsBelow(trie, n);
      CompleteBelow(trie, n);
      PositionInFork(trie, n, i);
      var k := |Blocks(trie.zero)|;
      if i < k {
        BlocksTileTheSpace(trie.zero, n - 1, i);
      } else {
        BlocksFillTheSpace(trie.zero, n - 1);
        BlocksTileTheSpace(trie.one, n - 1, i - k);
      }
    }
  }

  lemma OneBlock(trie: Trie, n: nat, i: nat)
    requires !trie.Fork? && i < |Blocks(trie)|
    ensures StartOf(trie, n, i) == Before(trie, n, i)
  {
  }

  lemma PositionInFork(trie: Trie, n: nat, i: nat)
    requires trie.Fork? && n > 0 && Fits(trie, n) && i < |Blocks(trie)|
    ensures var k := |Blocks(trie.zero)|;
            if i < k then
              StartOf(trie, n, i) == StartOf(trie.zero, n - 1, i) && Before(trie, n, i) == Before(trie.zero, n - 1, i)
            else
              && i - k < |Blocks(trie.one)|
              && StartOf(trie, n, i) == Pow2(n - 1) + StartOf(trie.one, n - 1, i - k)
              && Before(trie, n, i) == Total(Blocks(trie.zero), n - 1) + Before(trie.one, n - 1, i - k)
  {
    hide Blocks, Total, Start, Pow2, Fits;
    BlockOfFork(trie, n, i);
    PrefixesFit(trie, n, i);
    StartBelow(Blocks(trie)[i].prefix, n);
  }

  /** Block `i` of a fork, and the blocks before it, come from one half or from both. */
  lemma BlockOfFork(trie: Trie, n: nat, i: nat)
    requires trie.Fork? && n > 0 && i < |Blocks(trie)|
    ensures var zero, one, b := Blocks(trie.zero), Blocks(trie.one), Blocks(trie)[i];
            && b.prefix != []
            && (i < |zero| ==> !b.prefix[0] && b.prefix[1..] == zero[i].prefix
                               && Total(Blocks(trie)[..i], n) == Total(zero[..i], n - 1))
            && (i >= |zero| ==> i - |zero| < |one| && b.prefix[0] && b.prefix[1..] == one[i - |zero|].prefix
                                && Total(Blocks(trie)[..i], n) == Total(zero, n - 1) + Total(one[..i - |zero|], n - 1))
  {
    var zero, one, all := Blocks(trie.zero), Blocks(trie.one), Blocks(trie);
    if i < |zero| {
      assert all[..i] == Under(false, zero[..i]);
      TotalUnder(false, zero[..i], n);
    } else {
      var j := i - |zero|;
      assert all[..i] == Under(false, zero) + Under(true, one[..j]);
      TotalOfBoth(Under(false, zero), Under(true, one[..j]), n);
      TotalUnder(false, zero, n);
      TotalUnder(true, one[..j], n);
    }
  }

  /**
   * What all this says of any table: its leaves partition the addresses, and the blocks add up iff
   * every search succeeds.
   */
  lemma TablePartition(t: Table, node: int, n: nat)
    ensures Total(Blocks(Unfold(t, node, n)), n) == Pow2(n) <==>
            forall bits: Bits :: |bits| == n ==> Found(t, node, bits).Some?
    ensures forall bits: Bits, b :: |bits| == n && b in Blocks(Unfold(t, node, n)) && b.prefix <= bits ==>
              Found(t, node, bits) == Some(b.leaf)
    ensures forall bits: Bits :: |bits| == n && Found(t, node, bits).Some? ==>
              exists b :: b in Blocks(Unfold(t, node, n)) && b.prefix <= bits
  {
    hide *;
    var trie := Unfold(t, node, n);
    UnfoldFits(t, node, n);
    BlocksFillTheSpace(trie, n);
    forall bits: Bits | |bits| == n
      ensures Lookup(trie, bits) == Found(t, node, bits)
      ensures Found(t, node, bits).Some? ==> exists b :: b in Blocks(trie) && b.prefix <= bits
    {
      SearchIsLookup(t, node, bits);
      if Lookup(trie, bits).Some? {
        var b := FoundLeafHasABlock(trie, bits);
      }
    }
    CompleteMeans(trie, n);
    forall bits: Bits, b | |bits| == n && b in Blocks(trie) && b.prefix <= bits
      ensures Found(t, node, bits) == Some(b.leaf)
    {
      SearchIsLookup(t, node, bits);
      LookupIsConstantOnBlocks(trie, bits, b);
    }
  }

  lemma CompleteMeans(trie: Trie, n: nat)
    ensures Complete(trie, n) <==> forall bits: Bits :: |bits| == n ==> Lookup(trie, bits).Some?
  {
  }
}
