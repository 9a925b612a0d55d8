/** The emulated block device: one flat byte array, read and written a block at a time. */
module Storage {
  import opened Bytes

  const BLOCK_SIZE: nat := 4096
  const NUM_BLOCKS: nat := 16384
  const DEVICE_SIZE: nat := NUM_BLOCKS * BLOCK_SIZE

  /** The device seen as its sequence of blocks. */
  type Disk = seq<seq<byte>>

  predicate ValidDisk(d: Disk) {
    && |d| == NUM_BLOCKS
    && forall b :: 0 <= b < NUM_BLOCKS ==> |d[b]| == BLOCK_SIZE
  }

  class Device {
    const storage: array<byte>

    ghost predicate Valid() {
      storage.Length == DEVICE_SIZE
    }

    /** The abstract value of the flat array. */
    ghost function Blocks(): (d: Disk)
      requires Valid()
      reads storage
      ensures ValidDisk(d)
    {
      seq(NUM_BLOCKS, b requires 0 <= b < NUM_BLOCKS && Valid() reads storage =>
        storage[b * BLOCK_SIZE..(b + 1) * BLOCK_SIZE])
    }

    /** Block b is the b-th stretch of BLOCK_SIZE bytes, counted from the start of the array. */
    lemma BlocksAre(b: nat)
      requires Valid() && b < NUM_BLOCKS
      ensures Blocks()[b] == storage[b * BLOCK_SIZE..(b + 1) * BLOCK_SIZE]
    {}

    /** A fresh device holds arbitrary bytes. */
    constructor ()
      ensures Valid() && fresh(storage)
    {
      storage := new byte[DEVICE_SIZE];
    }

    /** Copies a block into the caller's buffer; out of range, the buffer keeps its bytes. */
    method ReadBlock(blockNumber: nat, data: seq<byte>) returns (rc: int, out: seq<byte>)
      requires Valid()
      requires |data| == BLOCK_SIZE
      ensures |out| == BLOCK_SIZE
      ensures blockNumber < NUM_BLOCKS ==> rc == 0 && out == Blocks()[blockNumber]
      ensures blockNumber >= NUM_BLOCKS ==> rc == -1 && out == data
    {
      if blockNumber >= NUM_BLOCKS {
        return -1, data;
      }
      out := storage[blockNumber * BLOCK_SIZE..(blockNumber + 1) * BLOCK_SIZE];
      rc := 0;
    }

    /** Replaces one block and leaves every byte of every other block alone. */
    method WriteBlock(blockNumber: nat, data: seq<byte>) returns (rc: int)
      requires Valid()
      requires |data| == BLOCK_SIZE
      modifies storage
      ensures blockNumber < NUM_BLOCKS ==> rc == 0 && Blocks() == old(Blocks())[blockNumber := data]
      ensures blockNumber >= NUM_BLOCKS ==> rc == -1 && Blocks() == old(Blocks())
    {
      if blockNumber >= NUM_BLOCKS {
        return -1;
      }
      var base := blockNumber * BLOCK_SIZE;
      forall i | 0 <= i < BLOCK_SIZE {
        storage[base + i] := data[i];
      }
      assert forall i :: 0 <= i < BLOCK_SIZE ==> storage[base..base + BLOCK_SIZE][i] == data[i];
      forall b | 0 <= b < NUM_BLOCKS
        ensures Blocks()[b] == old(Blocks())[blockNumber := data][b]
      {
        if b != blockNumber {
          assert (b + 1) * BLOCK_SIZE <= base || base + BLOCK_SIZE <= b * BLOCK_SIZE;
        }
      }
      rc := 0;
    }
  }
}
