// The shared region of the producer and its consumers: a bump allocator and a
// linked list of number sets inside one array of ints.

module BlockList {
  const MAX_NUMBERS := 10
  const INT_SIZE := 4
  const HEADER_WORDS := 4 // first_block_offset, free_offset, total_size, producer_finished

  datatype Block = Block(nums: seq<int>, taken: bool)

  // BLOCK_SIZE, in bytes.
  function BlockSize(count: nat): nat { 2 * INT_SIZE + count * INT_SIZE }

  // The word at which block `k` starts, and past the last block the free space.
  function Offset(blocks: seq<Block>, k: nat): (r: nat)
    requires k <= |blocks|
    ensures r >= HEADER_WORDS
  {
    if k == 0 then HEADER_WORDS else Offset(blocks, k - 1) + 2 + |blocks[k - 1].nums|
  }

  function FreeBytes(blocks: seq<Block>, size: nat): int { size - INT_SIZE * Offset(blocks, |blocks|) }

  lemma {:induction false} OffsetsIncrease(blocks: seq<Block>, i: nat, j: nat)
    requires i < j <= |blocks|
    ensures Offset(blocks, i) + 2 + |blocks[i].nums| <= Offset(blocks, j)
  {
    if i < j - 1 { OffsetsIncrease(blocks, i, j - 1); }
  }

  // Offsets depend only on the sizes of the earlier blocks.
  lemma {:induction false} SameOffset(blocks: seq<Block>, blocks': seq<Block>, k: nat)
    requires k <= |blocks| && k <= |blocks'|
    requires forall i :: 0 <= i < k ==> |blocks[i].nums| == |blocks'[i].nums|
    ensures Offset(blocks, k) == Offset(blocks', k)
  {
    if k > 0 { SameOffset(blocks, blocks', k - 1); }
  }

  // ------------------------------------------------------------------ layout

  ghost predicate Numbers(m: seq<int>, at: nat, nums: seq<int>) {
    at + |nums| <= |m| && m[at..at + |nums|] == nums
  }

  // One block in memory at word `at`: its count, its link and its numbers.
  ghost predicate BlockWords(m: seq<int>, at: nat, next: int, b: Block) {
    && 1 <= |b.nums| <= MAX_NUMBERS
    && at + 2 + |b.nums| <= |m|
    && m[at] == (if b.taken then 0 else |b.nums|)
    && m[at + 1] == next
    && Numbers(m, at + 2, b.nums)
  }

  // The byte offset of the block after block `k`; 0 after the last.
  function NextOffset(blocks: seq<Block>, k: nat): nat {
    if k + 1 < |blocks| then INT_SIZE * Offset(blocks, k + 1) else 0
  }

  ghost predicate BlockAt(m: seq<int>, blocks: seq<Block>, k: nat)
    requires k < |blocks|
  {
    BlockWords(m, Offset(blocks, k), NextOffset(blocks, k), blocks[k])
  }

  ghost predicate AllBlocks(m: seq<int>, blocks: seq<Block>) { forall k :: 0 <= k < |blocks| ==> BlockAt(m, blocks, k) }

  // The region holds exactly `blocks`, back to back; behind them it is zero.
  ghost predicate Rep(m: seq<int>, blocks: seq<Block>) {
    && |m| >= HEADER_WORDS + 2
    && Offset(blocks, |blocks|) <= |m|
    && m[0] == INT_SIZE * HEADER_WORDS
    && m[1] == INT_SIZE * Offset(blocks, |blocks|)
    && AllBlocks(m, blocks)
    && (forall j :: Offset(blocks, |blocks|) <= j < |m| ==> m[j] == 0)
  }

  ghost predicate Agree(m: seq<int>, m': seq<int>, lo: nat, hi: nat) {
    |m'| == |m| && hi <= |m| && forall j :: lo <= j < hi ==> m'[j] == m[j]
  }

  // A block stays in place while its words do.
  lemma WordsStay(m: seq<int>, m': seq<int>, at: nat, next: int, b: Block)
    requires BlockWords(m, at, next, b) && Agree(m, m', at, at + 2 + |b.nums|)
    ensures BlockWords(m', at, next, b)
  {
  }

  // The last block gets a link.
  lemma WordsLinked(m: seq<int>, m': seq<int>, at: nat, next: int, next': int, b: Block)
    requires BlockWords(m, at, next, b) && m' != [] && |m'| == |m|
    requires m'[at] == m[at] && m'[at + 1] == next' && Agree(m, m', at + 2, at + 2 + |b.nums|)
    ensures BlockWords(m', at, next', b)
  {
  }

  // A claimed block loses its count.
  lemma WordsTaken(m: seq<int>, at: nat, next: int, b: Block)
    requires BlockWords(m, at, next, b)
    ensures BlockWords(m[at := 0], at, next, b.(taken := true))
  {
  }

  // The word that points, or will point, behind the last block: its link, or
  // first_block_offset when there is none.
  function LinkWord(blocks: seq<Block>): nat {
    if blocks == [] then 0 else Offset(blocks, |blocks| - 1) + 1
  }

  lemma LinkInBounds(blocks: seq<Block>)
    ensures blocks == [] || HEADER_WORDS <= LinkWord(blocks) < Offset(blocks, |blocks|)
  {
  }

  // The new block is written at `free` but not yet linked.
  ghost predicate Written(m: seq<int>, m': seq<int>, free: nat, nums: seq<int>) {
    && |m'| == |m| && free + 2 + |nums| <= |m|
    && Agree(m, m', 0, free) && Agree(m, m', free + 2 + |nums|, |m|)
    && m'[free] == |nums| && m'[free + 1] == 0 && Numbers(m', free + 2, nums)
  }

  // The new block is written at `free` and linked from `link`.
  ghost predicate Appended(m: seq<int>, m': seq<int>, free: nat, link: nat, nums: seq<int>) {
    && |m'| == |m| && link < free && HEADER_WORDS <= free && free + 2 + |nums| <= |m|
    && m'[link] == INT_SIZE * free && m'[1] == INT_SIZE * (free + 2 + |nums|) && m'[3] == m[3]
    && m'[free] == |nums| && m'[free + 1] == 0 && Numbers(m', free + 2, nums)
    && Agree(m, m', free + 2 + |nums|, |m|)
    && (link == 0 ==> Agree(m, m', HEADER_WORDS, free))
    && (link > 0 ==> m'[0] == m[0] && Agree(m, m', HEADER_WORDS, link) && Agree(m, m', link + 1, free))
  }

  // Linking the written block.
  function LinkedWords(w: seq<int>, free: nat, link: nat, count: nat): seq<int>
    requires link < |w| && 1 < |w|
  {
    w[link := INT_SIZE * free][1 := INT_SIZE * (free + 2 + count)]
  }

  lemma LinkedIsAppended(m: seq<int>, w: seq<int>, free: nat, link: nat, nums: seq<int>)
    requires Written(m, w, free, nums) && HEADER_WORDS <= free && link < free && (link == 0 || link >= HEADER_WORDS)
    ensures Appended(m, LinkedWords(w, free, link, |nums|), free, link, nums)
  {
  }

  lemma BeforeLink(m: seq<int>, m': seq<int>, free: nat, link: nat, nums: seq<int>, at: nat, next: int, b: Block)
    requires Appended(m, m', free, link, nums) && BlockWords(m, at, next, b)
    requires HEADER_WORDS <= at && at + 2 + |b.nums| <= link
    ensures BlockWords(m', at, next, b)
  {
  }

  lemma KeepOffsets(blocks: seq<Block>, nums: seq<int>, k: nat)
    requires k + 1 < |blocks|
    ensures var blocks' := blocks + [Block(nums, false)];
            Offset(blocks', k) == Offset(blocks, k) && NextOffset(blocks', k) == NextOffset(blocks, k)
  {
  }

  lemma AppendKeepsBlock(m: seq<int>, m': seq<int>, blocks: seq<Block>, nums: seq<int>, k: nat, free: nat, link: nat)
    requires k + 1 < |blocks| && BlockAt(m, blocks, k)
    requires Appended(m, m', free, link, nums) && link == LinkWord(blocks)
    ensures BlockAt(m', blocks + [Block(nums, false)], k)
  {
    var at, next, b := Offset(blocks, k), NextOffset(blocks, k), blocks[k];
    assert at + 2 + |b.nums| <= link by { OffsetsIncrease(blocks, k, |blocks| - 1); }
    assert BlockWords(m', at, next, b) by { BeforeLink(m, m', free, link, nums, at, next, b); }
    KeepOffsets(blocks, nums, k);
  }

  lemma LastBlockLinked(m: seq<int>, m': seq<int>, blocks: seq<Block>, nums: seq<int>, free: nat, link: nat)
    requires blocks != [] && BlockAt(m, blocks, |blocks| - 1)
    requires Appended(m, m', free, link, nums) && link == LinkWord(blocks) && free == Offset(blocks, |blocks|)
    ensures BlockAt(m', blocks + [Block(nums, false)], |blocks| - 1)
  {
    var k := |blocks| - 1;
    var at, b := Offset(blocks, k), blocks[k];
    assert at + 2 + |b.nums| <= free by { OffsetsIncrease(blocks, k, k + 1); }
    assert BlockWords(m', at, INT_SIZE * free, b) by { WordsLinked(m, m', at, 0, INT_SIZE * free, b); }
    SameOffset(blocks, blocks + [Block(nums, false)], k);
    SameOffset(blocks, blocks + [Block(nums, false)], k + 1);
  }

  lemma NewBlockAt(m: seq<int>, m': seq<int>, blocks: seq<Block>, nums: seq<int>)
    requires Appended(m, m', Offset(blocks, |blocks|), LinkWord(blocks), nums) && 1 <= |nums| <= MAX_NUMBERS
    ensures var blocks' := blocks + [Block(nums, false)];
            && BlockAt(m', blocks', |blocks|)
            && Offset(blocks', |blocks'|) == Offset(blocks, |blocks|) + 2 + |nums|
  {
    SameOffset(blocks, blocks + [Block(nums, false)], |blocks|);
  }

  lemma BlockAppended(m: seq<int>, m': seq<int>, blocks: seq<Block>, nums: seq<int>, k: nat)
    requires k <= |blocks| && (k < |blocks| ==> BlockAt(m, blocks, k))
    requires Appended(m, m', Offset(blocks, |blocks|), LinkWord(blocks), nums) && 1 <= |nums| <= MAX_NUMBERS
    ensures BlockAt(m', blocks + [Block(nums, false)], k)
  {
    if k + 1 < |blocks| {
      AppendKeepsBlock(m, m', blocks, nums, k, Offset(blocks, |blocks|), LinkWord(blocks));
    } else if k + 1 == |blocks| {
      LastBlockLinked(m, m', blocks, nums, Offset(blocks, |blocks|), LinkWord(blocks));
    } else {
      NewBlockAt(m, m', blocks, nums);
    }
  }

  lemma BlocksAppended(m: seq<int>, m': seq<int>, blocks: seq<Block>, nums: seq<int>)
    requires AllBlocks(m, blocks) && Appended(m, m', Offset(blocks, |blocks|), LinkWord(blocks), nums)
    requires 1 <= |nums| <= MAX_NUMBERS
    ensures AllBlocks(m', blocks + [Block(nums, false)])
  {
    forall k | 0 <= k < |blocks + [Block(nums, false)]| ensures BlockAt(m', blocks + [Block(nums, false)], k) {
      BlockAppended(m, m', blocks, nums, k);
    }
  }

  lemma RepAppend(m: seq<int>, m': seq<int>, blocks: seq<Block>, nums: seq<int>)
    requires Rep(m, blocks) && Appended(m, m', Offset(blocks, |blocks|), LinkWord(blocks), nums)
    requires 1 <= |nums| <= MAX_NUMBERS
    ensures Rep(m', blocks + [Block(nums, false)])
  {
    NewBlockAt(m, m', blocks, nums);
    BlocksAppended(m, m', blocks, nums);
  }

  lemma LinkKeeps(m: seq<int>, w: seq<int>, blocks: seq<Block>, nums: seq<int>)
    requires Rep(m, blocks) && Written(m, w, Offset(blocks, |blocks|), nums) && 1 <= |nums| <= MAX_NUMBERS
    ensures LinkWord(blocks) < |w|
    ensures var m' := LinkedWords(w, Offset(blocks, |blocks|), LinkWord(blocks), |nums|);
            Rep(m', blocks + [Block(nums, false)]) && m'[3] == m[3]
    ensures Offset(blocks + [Block(nums, false)], |blocks|) == Offset(blocks, |blocks|)
  {
    var free, link := Offset(blocks, |blocks|), LinkWord(blocks);
    LinkInBounds(blocks);
    LinkedIsAppended(m, w, free, link, nums);
    RepAppend(m, LinkedWords(w, free, link, |nums|), blocks, nums);
    SameOffset(blocks, blocks + [Block(nums, false)], |blocks|);
  }

  lemma TakeKeepsOffsets(blocks: seq<Block>, t: nat, k: nat)
    requires t < |blocks| && k < |blocks|
    ensures var blocks' := blocks[t := blocks[t].(taken := true)];
            Offset(blocks', k) == Offset(blocks, k) && NextOffset(blocks', k) == NextOffset(blocks, k)
  {
    SameOffset(blocks, blocks[t := blocks[t].(taken := true)], k);
    SameOffset(blocks, blocks[t := blocks[t].(taken := true)], k + 1);
  }

  // The count word of one block lies outside every other block.
  lemma OutsideOthers(blocks: seq<Block>, t: nat, k: nat)
    requires t < |blocks| && k < |blocks| && k != t
    ensures Offset(blocks, t) < Offset(blocks, k) || Offset(blocks, t) >= Offset(blocks, k) + 2 + |blocks[k].nums|
  {
    if k < t { OffsetsIncrease(blocks, k, t); } else { OffsetsIncrease(blocks, t, k); }
  }

  lemma TakeKeepsBlock(m: seq<int>, blocks: seq<Block>, t: nat, k: nat)
    requires t < |blocks| && k < |blocks| && BlockAt(m, blocks, k) && BlockAt(m, blocks, t)
    ensures BlockAt(m[Offset(blocks, t) := 0], blocks[t := blocks[t].(taken := true)], k)
  {
    var at, next, b, taken := Offset(blocks, k), NextOffset(blocks, k), blocks[k], Offset(blocks, t);
    TakeKeepsOffsets(blocks, t, k);
    if k == t {
      assert BlockWords(m[taken := 0], at, next, b.(taken := true)) by { WordsTaken(m, at, next, b); }
    } else {
      OutsideOthers(blocks, t, k);
      assert BlockWords(m[taken := 0], at, next, b) by { WordsStay(m, m[taken := 0], at, next, b); }
    }
  }

  // Overwriting the count of a block marks it as taken and changes nothing else.
  lemma RepTake(m: seq<int>, blocks: seq<Block>, t: nat)
    requires Rep(m, blocks) && t < |blocks|
    ensures Offset(blocks, t) < |m|
    ensures Rep(m[Offset(blocks, t) := 0], blocks[t := blocks[t].(taken := true)])
  {
    assert BlockAt(m, blocks, t);
    var m' := m[Offset(blocks, t) := 0];
    var blocks' := blocks[t := blocks[t].(taken := true)];
    SameOffset(blocks, blocks', |blocks|);
    OffsetsIncrease(blocks, t, |blocks|);
    forall k | 0 <= k < |blocks'| ensures BlockAt(m', blocks', k) {
      assert BlockAt(m, blocks, k);
      TakeKeepsBlock(m, blocks, t, k);
    }
  }

  // The offsets a walk from `offset` visits, `steps` at most.
  function Chain(m: seq<int>, offset: int, steps: nat): seq<int>
    decreases steps
  {
    if steps == 0 || offset == 0 then []
    else if offset < 0 || offset / INT_SIZE + 1 >= |m| then [offset]
    else [offset] + Chain(m, m[offset / INT_SIZE + 1], steps - 1)
  }

  lemma {:induction false} ChainFrom(m: seq<int>, blocks: seq<Block>, k: nat, steps: nat)
    requires Rep(m, blocks) && k < |blocks| && steps >= |blocks| - k
    ensures Chain(m, INT_SIZE * Offset(blocks, k), steps)
            == seq(|blocks| - k, i requires 0 <= i < |blocks| - k => INT_SIZE * Offset(blocks, k + i))
    decreases |blocks| - k
  {
    assert BlockAt(m, blocks, k);
    if k + 1 < |blocks| { ChainFrom(m, blocks, k + 1, steps - 1); }
  }

  // The walk visits the written blocks, each once, at increasing offsets between
  // the header and the free space, and ends; before the first block it visits
  // only the zero-filled word pair behind the header.
  lemma ChainIsLayout(m: seq<int>, blocks: seq<Block>, steps: nat)
    requires Rep(m, blocks) && steps > |blocks|
    ensures var chain := Chain(m, m[0], steps);
            && |chain| == (if blocks == [] then 1 else |blocks|)
            && (forall i :: 0 <= i < |blocks| ==> chain[i] == INT_SIZE * Offset(blocks, i))
            && (forall i, j :: 0 <= i < j < |chain| ==> chain[i] < chain[j])
            && (forall i :: 0 <= i < |chain| ==> INT_SIZE * HEADER_WORDS <= chain[i] <= m[1] && chain[i] / INT_SIZE + 1 < |m|)
  {
    if blocks == [] {
      assert Chain(m, m[0], steps) == [m[0]] + Chain(m, m[HEADER_WORDS + 1], steps - 1);
    } else {
      ChainFrom(m, blocks, 0, steps);
      var chain := Chain(m, m[0], steps);
      forall i, j | 0 <= i < j < |chain| ensures chain[i] < chain[j] { OffsetsIncrease(blocks, i, j); }
      forall i | 0 <= i < |chain|
        ensures INT_SIZE * HEADER_WORDS <= chain[i] <= m[1] && chain[i] / INT_SIZE + 1 < |m|
      {
        assert BlockAt(m, blocks, i);
        OffsetsIncrease(blocks, i, |blocks|);
      }
    }
  }

  // --------------------------------------------------------- what the steps do

  // The first block not yet taken.
  function FirstPending(blocks: seq<Block>): (r: nat)
    ensures r <= |blocks|
    ensures forall i :: 0 <= i < r ==> blocks[i].taken
    ensures r < |blocks| ==> !blocks[r].taken
  {
    if blocks == [] || !blocks[0].taken then 0 else
    var r := FirstPending(blocks[1..]);
    assert forall i :: 1 <= i < r + 1 ==> blocks[i] == blocks[1..][i - 1];
    r + 1
  }

  lemma FirstPendingUnique(blocks: seq<Block>, k: nat)
    requires k <= |blocks|
    requires forall i :: 0 <= i < k ==> blocks[i].taken
    requires k < |blocks| ==> !blocks[k].taken
    ensures FirstPending(blocks) == k
  {
  }

  function Take(blocks: seq<Block>): seq<Block> {
    var k := FirstPending(blocks);
    if k < |blocks| then blocks[k := blocks[k].(taken := true)] else blocks
  }

  ghost predicate IsMinMax(nums: seq<int>, min: int, max: int) {
    && min in nums && max in nums && forall i :: 0 <= i < |nums| ==> min <= nums[i] <= max
  }

  // A walk that has reached `offset` looks at entry `i` next. Before the first block the only
  // entry is the zero-filled word pair behind the header.
  ghost predicate AtEntry(blocks: seq<Block>, offset: nat, i: nat)
    requires i <= |blocks|
  {
    if offset == 0 then i == |blocks| else offset == INT_SIZE * Offset(blocks, i) && (i < |blocks| || blocks == [])
  }

  class Region {
    const mem: array<int>
    ghost var blocks: seq<Block>
    var lastBlockOffset: nat // the producer's local variable

    ghost predicate Valid()
      reads this, mem
    {
      && Rep(mem[..], blocks)
      && lastBlockOffset == if blocks == [] then 0 else INT_SIZE * Offset(blocks, |blocks| - 1)
    }

    ghost predicate Finished()
      reads this, mem
      requires mem.Length >= HEADER_WORDS
    {
      mem[3] != 0
    }

    // A fresh zero-filled region of `words` ints, initialised by the producer.
    constructor (words: nat)
      requires words >= HEADER_WORDS + 2
      ensures Valid() && fresh(mem) && mem.Length == words && blocks == [] && !Finished()
      ensures mem[0] == mem[1] == 16 && mem[2] == 4 * words && mem[3] == 0
    {
      mem := new int[words](_ => 0);
      blocks, lastBlockOffset := [], 0;
      new;
      mem[0], mem[1], mem[2], mem[3] := INT_SIZE * HEADER_WORDS, INT_SIZE * HEADER_WORDS, INT_SIZE * words, 0;
    }

    // The producer's critical section with a set it has drawn.
    method Produce(nums: seq<int>) returns (ok: bool)
      requires Valid() && 1 <= |nums| <= MAX_NUMBERS
      modifies mem, this`blocks, this`lastBlockOffset
      ensures Valid() && Finished() == old(Finished())
      ensures ok <==> BlockSize(|nums|) <= FreeBytes(old(blocks), INT_SIZE * mem.Length)
      ensures ok ==> blocks == old(blocks) + [Block(nums, false)]
      ensures !ok ==> blocks == old(blocks) && mem[..] == old(mem[..])
    {
      var size := INT_SIZE * mem.Length;
      var freeOffset := mem[1];
      if size - freeOffset < 2 * INT_SIZE { return false; }
      if freeOffset + BlockSize(|nums|) > size { return false; }
      Write(freeOffset / INT_SIZE, nums);
      Link(old(mem[..]), nums);
      return true;
    }

    method Write(block: nat, nums: seq<int>)
      requires HEADER_WORDS <= block && block + 2 + |nums| <= mem.Length
      modifies mem
      ensures Written(old(mem[..]), mem[..], block, nums)
    {
      mem[block] := |nums|;
      mem[block + 1] := 0;
      var i := 0;
      while i < |nums|
        invariant 0 <= i <= |nums|
        invariant mem[block] == |nums| && mem[block + 1] == 0
        invariant forall j :: 0 <= j < block || block + 2 + i <= j < mem.Length ==> mem[j] == old(mem[j])
        invariant mem[block + 2..block + 2 + i] == nums[..i]
      {
        mem[block + 2 + i] := nums[i];
        i := i + 1;
      }
    }

    // The last part of the section: link the written block in.
    method Link(ghost m: seq<int>, nums: seq<int>)
      requires Rep(m, blocks) && Written(m, mem[..], Offset(blocks, |blocks|), nums) && 1 <= |nums| <= MAX_NUMBERS
      requires lastBlockOffset == if blocks == [] then 0 else INT_SIZE * Offset(blocks, |blocks| - 1)
      modifies mem, this`blocks, this`lastBlockOffset
      ensures Valid() && mem[3] == m[3] && blocks == old(blocks) + [Block(nums, false)]
    {
      ghost var free, link := Offset(blocks, |blocks|), LinkWord(blocks);
      LinkInBounds(blocks);
      if lastBlockOffset != 0 {
        var prev := lastBlockOffset / INT_SIZE;
        mem[prev + 1] := mem[1];
      } else {
        mem[0] := mem[1];
      }
      lastBlockOffset := mem[1];
      mem[1] := mem[1] + BlockSize(|nums|);
      assert mem[..] == LinkedWords(old(mem[..]), free, link, |nums|);
      LinkKeeps(m, old(mem[..]), blocks, nums);
      blocks := blocks + [Block(nums, false)];
    }

    method Finish()
      requires Valid()
      modifies mem
      ensures Valid() && Finished()
    {
      ghost var m := mem[..];
      mem[3] := 1;
      RepIgnoresFlag(m, mem[..], blocks);
    }

    // The consumer's walk to the first block that is not taken; 0 if there is none.
    method Walk() returns (offset: nat)
      requires Valid()
      ensures FirstPending(blocks) < |blocks| ==> offset == INT_SIZE * Offset(blocks, FirstPending(blocks))
      ensures FirstPending(blocks) == |blocks| ==> offset == 0
    {
      ghost var i := 0;
      offset := mem[0];
      while offset != 0
        invariant 0 <= i <= |blocks| && AtEntry(blocks, offset, i)
        invariant forall k :: 0 <= k < i ==> blocks[k].taken
        decreases |blocks| - i, offset
      {
        var block := offset / INT_SIZE;
        assert i < |blocks| ==> BlockAt(mem[..], blocks, i);
        if mem[block] > 0 {
          FirstPendingUnique(blocks, i);
          return;
        }
        offset := mem[block + 1];
        if i < |blocks| { i := i + 1; }
      }
      FirstPendingUnique(blocks, i);
    }

    // The producer's final check.
    method AllDone() returns (done: bool)
      requires Valid()
      ensures done <==> forall k :: 0 <= k < |blocks| ==> blocks[k].taken
    {
      done := true;
      var offset: nat := mem[0];
      ghost var i := 0;
      while offset != 0
        invariant 0 <= i <= |blocks| && AtEntry(blocks, offset, i)
        invariant done && forall k :: 0 <= k < i ==> blocks[k].taken
        decreases |blocks| - i, offset
      {
        var block := offset / INT_SIZE;
        assert i < |blocks| ==> BlockAt(mem[..], blocks, i);
        if mem[block] != 0 {
          done := false;
          break;
        }
        offset := mem[block + 1];
        if i < |blocks| { i := i + 1; }
      }
    }

    // A consumer's critical section.
    method Consume() returns (found: bool, nums: seq<int>)
      requires Valid()
      modifies mem, this`blocks
      ensures Valid() && Finished() == old(Finished()) && blocks == Take(old(blocks))
      ensures found <==> FirstPending(old(blocks)) < |old(blocks)|
      ensures found ==> nums == old(blocks)[FirstPending(old(blocks))].nums
    {
      nums := [];
      var offset := Walk();
      found := offset != 0;
      if found {
        nums := Claim(offset / INT_SIZE, FirstPending(blocks));
      }
    }

    // Copy the numbers out and mark the block as taken.
    method Claim(block: nat, ghost k: nat) returns (nums: seq<int>)
      requires Valid() && k < |blocks| && !blocks[k].taken && block == Offset(blocks, k)
      modifies mem, this`blocks
      ensures Valid() && Finished() == old(Finished())
      ensures blocks == old(blocks)[k := old(blocks)[k].(taken := true)] && nums == old(blocks)[k].nums
    {
      assert BlockAt(mem[..], blocks, k);
      var count := mem[block];
      nums := [];
      var i := 0;
      while i < count
        invariant 0 <= i <= count && nums == mem[block + 2..block + 2 + i]
      {
        nums := nums + [mem[block + 2 + i]];
        i := i + 1;
      }
      RepTake(mem[..], blocks, k);
      mem[block] := 0;
      assert mem[..] == old(mem[..])[block := 0];
      blocks := blocks[k := blocks[k].(taken := true)];
      SameOffset(old(blocks), blocks, |blocks| - 1);
    }
  }

  lemma RepIgnoresFlag(m: seq<int>, m': seq<int>, blocks: seq<Block>)
    requires Rep(m, blocks) && |m'| == |m| && forall j :: 0 <= j < |m| && j != 3 ==> m'[j] == m[j]
    ensures Rep(m', blocks)
  {
    forall k | 0 <= k < |blocks| ensures BlockAt(m', blocks, k) {
      assert BlockAt(m, blocks, k);
      WordsStay(m, m', Offset(blocks, k), NextOffset(blocks, k), blocks[k]);
    }
  }

  // What a consumer reports about the set it has claimed.
  method MinMax(nums: seq<int>) returns (min: int, max: int)
    requires nums != []
    ensures IsMinMax(nums, min, max)
  {
    min, max := nums[0], nums[0];
    var i := 1;
    while i < |nums|
      invariant 1 <= i <= |nums|
      invariant min in nums && max in nums && forall k :: 0 <= k < i ==> min <= nums[k] <= max
    {
      if nums[i] < min { min := nums[i]; }
      if nums[i] > max { max := nums[i]; }
      i := i + 1;
    }
  }
}
