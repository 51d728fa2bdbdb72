/**
 * The block-compressed table of adjacent ranges: one absolute offset per block of BLOCK_SIZE + 1 ranges,
 * and BLOCK_SIZE lengths of one byte each.
 */
module RangeTables {

  // ---------------------------------------------------------------- plain prefix sums

  /** Past the given lengths every range is empty: the table ends with a sentinel and padding. */
  function LengthAt(lengths: seq<nat>, i: nat): nat {
    if i < |lengths| then lengths[i] else 0
  }

  function Sum(lengths: seq<nat>, i: nat): nat {
    if i == 0 then 0 else Sum(lengths, i - 1) + LengthAt(lengths, i - 1)
  }

  function Byte(length: nat): nat {
    length % 256
  }

  // ---------------------------------------------------------------- blocks

  /** The first range of block `k`. */
  function Start(blockSize: nat, k: nat): nat {
    if k == 0 then 0 else Start(blockSize, k - 1) + blockSize + 1
  }

  lemma {:induction false} StartIsProduct(blockSize: nat, k: nat)
    ensures Start(blockSize, k) == k * (blockSize + 1)
  {
    if k > 0 { StartIsProduct(blockSize, k - 1); }
  }

  lemma {:induction false} StartsApart(blockSize: nat, k: nat, m: nat)
    requires k < m
    ensures Start(blockSize, k) + blockSize < Start(blockSize, m)
    decreases m
  {
    if k + 1 < m { StartsApart(blockSize, k, m - 1); }
  }

  /** Quotient and remainder find the block of a range and its place there. */
  method Locate(blockSize: nat, id: nat) returns (internalIdx: nat, blockIdx: nat)
    ensures internalIdx <= blockSize && id == Start(blockSize, blockIdx) + internalIdx
  {
    internalIdx, blockIdx := id % (blockSize + 1), id / (blockSize + 1);
    StartIsProduct(blockSize, blockIdx);
  }

  ghost predicate Offsets(blockSize: nat, lengths: seq<nat>, offsets: seq<nat>) {
    forall k: nat :: k < |offsets| ==> offsets[k] == Sum(lengths, Start(blockSize, k))
  }

  ghost predicate BlockUpTo(lengths: seq<nat>, start: nat, block: seq<nat>, count: nat)
    requires count <= |block|
  {
    forall j: nat :: j < count ==> block[j] == Byte(LengthAt(lengths, start + j))
  }

  ghost predicate Blocks(blockSize: nat, lengths: seq<nat>, blocks: seq<seq<nat>>) {
    forall k: nat :: k < |blocks| ==>
      |blocks[k]| == blockSize && BlockUpTo(lengths, Start(blockSize, k), blocks[k], blockSize)
  }

  /** The table holds `lengths`, and its last block is the one with the sentinel. */
  ghost predicate Represents(blockSize: nat, lengths: seq<nat>, offsets: seq<nat>, blocks: seq<seq<nat>>) {
    && |offsets| == |blocks| > 0
    && Start(blockSize, |blocks| - 1) <= |lengths| < Start(blockSize, |blocks|)
    && Offsets(blockSize, lengths, offsets)
    && Blocks(blockSize, lengths, blocks)
  }

  /** Each length of ranges `from` to `to` fits into one byte. */
  ghost predicate Fit(lengths: seq<nat>, from: nat, to: nat) {
    forall i :: from <= i < to ==> LengthAt(lengths, i) <= 255
  }

  lemma OneBlock(blockSize: nat, k: nat, id: nat, count: nat)
    requires Start(blockSize, k) <= id <= Start(blockSize, k) + blockSize && id + 1 < Start(blockSize, count)
    ensures k < count
    ensures id == Start(blockSize, k) + blockSize ==> k + 1 < count
    ensures forall m :: Start(blockSize, m) <= id <= Start(blockSize, m) + blockSize ==> m == k
  {
    forall m: nat | Start(blockSize, m) <= id <= Start(blockSize, m) + blockSize ensures m == k {
      if m < k { StartsApart(blockSize, m, k); }
      if k < m { StartsApart(blockSize, k, m); }
    }
    if count < k { StartsApart(blockSize, count, k); }
  }

  /** What is read of a block adds up to the true sum exactly when no length was cut to its last byte. */
  lemma {:induction false} BytesAddUp(lengths: seq<nat>, start: nat, block: seq<nat>, count: nat)
    requires count <= |block| && BlockUpTo(lengths, start, block, count)
    ensures Sum(lengths, start) + Sum(block, count) <= Sum(lengths, start + count)
    ensures Sum(lengths, start) + Sum(block, count) == Sum(lengths, start + count) <==>
              Fit(lengths, start, start + count)
    decreases count
  {
    if count > 0 {
      BytesAddUp(lengths, start, block, count - 1);
      assert block[count - 1] == Byte(LengthAt(lengths, start + (count - 1)));
    }
  }

  lemma BlocksPush(blockSize: nat, lengths: seq<nat>, blocks: seq<seq<nat>>, block: seq<nat>)
    requires Blocks(blockSize, lengths, blocks)
    requires |block| == blockSize && BlockUpTo(lengths, Start(blockSize, |blocks|), block, blockSize)
    ensures Blocks(blockSize, lengths, blocks + [block])
    ensures Start(blockSize, |blocks + [block]|) == Start(blockSize, |blocks|) + blockSize + 1
  {
  }

  // ---------------------------------------------------------------- the table

  method WriteLength(block: array<nat>, at: nat, length: nat, ghost lengths: seq<nat>, ghost start: nat)
    requires at < block.Length && BlockUpTo(lengths, start, block[..], at) && length == LengthAt(lengths, start + at)
    modifies block
    ensures BlockUpTo(lengths, start, block[..], at + 1)
  {
    block[at] := Byte(length);
  }

  /** Completes the last block: the last length, then zeros. */
  method Pad(block: array<nat>, from: nat, length: nat, ghost lengths: seq<nat>, ghost start: nat)
    requires 1 <= from <= block.Length && |lengths| <= start + from && length == LengthAt(lengths, start + (from - 1))
    requires BlockUpTo(lengths, start, block[..], from - 1)
    modifies block
    ensures BlockUpTo(lengths, start, block[..], block.Length)
  {
    var blockIdx, lastLength := from, length;
    while blockIdx != 0
      invariant 0 <= blockIdx <= block.Length
      invariant blockIdx > 0 ==>
                  && |lengths| <= start + blockIdx && lastLength == LengthAt(lengths, start + (blockIdx - 1))
                  && BlockUpTo(lengths, start, block[..], blockIdx - 1)
      invariant blockIdx == 0 ==> BlockUpTo(lengths, start, block[..], block.Length)
      decreases if blockIdx == 0 then 0 else block.Length + 1 - blockIdx
    {
      WriteLength(block, blockIdx - 1, lastLength, lengths, start);
      lastLength := 0;
      blockIdx := if blockIdx == block.Length then 0 else blockIdx + 1;
    }
  }

  class RangeTable {
    const blockSize: nat
    var blockOffsets: seq<nat>
    var diffBlocks: seq<seq<nat>>
    var sumLengths: nat

    ghost predicate Holds(lengths: seq<nat>)
      reads this
    {
      Represents(blockSize, lengths, blockOffsets, diffBlocks) && sumLengths == Sum(lengths, |lengths|)
    }

    constructor (blockSize: nat, lengths: seq<nat>)
      requires blockSize >= 1
      ensures this.blockSize == blockSize && Holds(lengths)
    {
      this.blockSize := blockSize;
      blockOffsets, diffBlocks, sumLengths := [], [], 0;
      new;
      var lastLength, prefixSum, blockIdx := 0, 0, 0;
      var offsets, blocks := [], [];
      // The buffer starts out with arbitrary contents and is never reset between blocks.
      var block := new nat[blockSize];
      for p := 0 to |lengths|
        invariant 0 <= blockIdx <= blockSize && p == Start(blockSize, |blocks|) + blockIdx
        invariant |offsets| == |blocks| + if blockIdx == 0 then 0 else 1
        invariant Offsets(blockSize, lengths, offsets) && Blocks(blockSize, lengths, blocks)
        invariant blockIdx > 0 ==> lastLength == LengthAt(lengths, p - 1)
        invariant blockIdx > 0 ==> BlockUpTo(lengths, Start(blockSize, |blocks|), block[..], blockIdx - 1)
        invariant prefixSum == Sum(lengths, p)
      {
        if blockIdx == 0 {
          offsets := offsets + [prefixSum];
        } else {
          WriteLength(block, blockIdx - 1, lastLength, lengths, Start(blockSize, |blocks|));
        }
        if blockIdx == blockSize {
          BlocksPush(blockSize, lengths, blocks, block[..]);
          blocks := blocks + [block[..]];
        }
        prefixSum, lastLength := prefixSum + lengths[p], lengths[p];
        blockIdx := if blockIdx == blockSize then 0 else blockIdx + 1;
      }
      if blockIdx == 0 {
        offsets := offsets + [prefixSum];
        blockIdx, lastLength := 1, 0;
      }
      Pad(block, blockIdx, lastLength, lengths, Start(blockSize, |blocks|));
      BlocksPush(blockSize, lengths, blocks, block[..]);
      blocks := blocks + [block[..]];
      blockOffsets, diffBlocks, sumLengths := offsets, blocks, prefixSum;
    }

    method PrefixSumAtIndex(index: nat, block: seq<nat>) returns (sum: nat)
      requires index < |block|
      ensures sum == Sum(block, index + 1)
    {
      sum := 0;
      for i := 0 to index + 1
        invariant sum == Sum(block, i)
      {
        sum := sum + block[i];
      }
    }

    /**
     * Every range, those of the last partly filled block and of its padding included, is the one plain
     * prefix sums give exactly when no stored length from the start of its block up to it exceeds one byte.
     * The last length of a block is not stored: it is the distance to the next offset.
     */
    method GetRange(ghost lengths: seq<nat>, id: nat) returns (begin: nat, end: nat)
      requires Holds(lengths) && id + 1 < Start(blockSize, |diffBlocks|)
      ensures forall k :: Start(blockSize, k) <= id <= Start(blockSize, k) + blockSize ==>
                (begin == Sum(lengths, id) && end == Sum(lengths, id + 1)
                 <==> Fit(lengths, Start(blockSize, k), if id == Start(blockSize, k) + blockSize then id else id + 1))
    {
      var internalIdx, blockIdx := Locate(blockSize, id);
      OneBlock(blockSize, blockIdx, id, |diffBlocks|);
      ghost var start := Start(blockSize, blockIdx);
      begin := blockOffsets[blockIdx];
      var block := diffBlocks[blockIdx];
      BytesAddUp(lengths, start, block, internalIdx);
      if internalIdx > 0 {
        var sum := PrefixSumAtIndex(internalIdx - 1, block);
        begin := begin + sum;
      }
      if internalIdx < blockSize {
        BytesAddUp(lengths, start, block, internalIdx + 1);
        end := begin + block[internalIdx];
      } else {
        end := blockOffsets[blockIdx + 1];
      }
    }
  }

  /** The shortest length that is cut. */
  method LongLengthIsCut(blockSize: nat) returns (begin: nat, end: nat)
    requires blockSize >= 1
    ensures (begin, end) != (0, 256)
  {
    var lengths := [256];
    var table := new RangeTable(blockSize, lengths);
    StartsApart(blockSize, 0, |table.diffBlocks|);
    begin, end := table.GetRange(lengths, 0);
    assert Start(blockSize, 0) == 0 && LengthAt(lengths, 0) == 256 && Sum(lengths, 0) == 0 && Sum(lengths, 1) == 256;
  }
}
