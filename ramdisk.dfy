/** The kernel's RAM disk: a byte slice viewed as consecutive 512-byte
    blocks, with bounds-checked block reads and writes. */
module RamDisk {
  import opened Common

  const BLOCK_SIZE: nat := 512

  /** `BlockError`; the RAM disk only ever reports `OutOfBounds`. */
  datatype BlockError = OutOfBounds | NotReady | IoError

  datatype BlockResult<T> = Ok(value: T) | Err(error: BlockError)

  /** Block `id` of the storage bytes `s`. */
  function BlockOf(s: seq<byte>, id: nat): (r: seq<byte>)
    requires (id + 1) * BLOCK_SIZE <= |s|
    ensures |r| == BLOCK_SIZE
    ensures forall k :: 0 <= k < BLOCK_SIZE ==> r[k] == s[id * BLOCK_SIZE + k]
  {
    s[id * BLOCK_SIZE..(id + 1) * BLOCK_SIZE]
  }

  /** The storage bytes `s` with block `id` replaced by `data`. */
  function WithBlock(s: seq<byte>, id: nat, data: seq<byte>): (r: seq<byte>)
    requires (id + 1) * BLOCK_SIZE <= |s| && |data| == BLOCK_SIZE
    ensures |r| == |s|
    ensures forall k :: 0 <= k < |s| && !(id * BLOCK_SIZE <= k < (id + 1) * BLOCK_SIZE) ==> r[k] == s[k]
    ensures forall k :: 0 <= k < BLOCK_SIZE ==> r[id * BLOCK_SIZE + k] == data[k]
  {
    s[..id * BLOCK_SIZE] + data + s[(id + 1) * BLOCK_SIZE..]
  }

  /** Storage that holds `data` in block `id` and is otherwise `s` is the
      storage `WithBlock` describes. */
  lemma BlockReplaced(s: seq<byte>, t: seq<byte>, id: nat, data: seq<byte>)
    requires (id + 1) * BLOCK_SIZE <= |s| && |data| == BLOCK_SIZE && |t| == |s|
    requires forall i :: id * BLOCK_SIZE <= i < id * BLOCK_SIZE + |data| ==> t[i] == data[i - id * BLOCK_SIZE]
    requires forall i :: 0 <= i < |t| && !(id * BLOCK_SIZE <= i < id * BLOCK_SIZE + |data|) ==> t[i] == s[i]
    ensures t == WithBlock(s, id, data)
  {
    var w := WithBlock(s, id, data);
    forall i | 0 <= i < |s|
      ensures t[i] == w[i]
    {
      if id * BLOCK_SIZE <= i < (id + 1) * BLOCK_SIZE {
        assert w[id * BLOCK_SIZE + (i - id * BLOCK_SIZE)] == data[i - id * BLOCK_SIZE];
      }
    }
  }

  /** Block `id` lies inside storage of `count` blocks. */
  lemma BlockInside(id: nat, count: nat)
    requires id < count
    ensures (id + 1) * BLOCK_SIZE <= count * BLOCK_SIZE
  {
    MulMono(id + 1, count, BLOCK_SIZE);
  }

  /** Reading back a block just written gives what was written. */
  lemma ReadAfterWrite(s: seq<byte>, id: nat, data: seq<byte>)
    requires (id + 1) * BLOCK_SIZE <= |s| && |data| == BLOCK_SIZE
    ensures BlockOf(WithBlock(s, id, data), id) == data
  {
    var r := BlockOf(WithBlock(s, id, data), id);
    assert forall k :: 0 <= k < BLOCK_SIZE ==> r[k] == data[k];
  }

  /** Writing one block leaves every other block as it was. */
  lemma {:induction false} OtherBlocksKept(s: seq<byte>, id: nat, data: seq<byte>, other: nat)
    requires (id + 1) * BLOCK_SIZE <= |s| && |data| == BLOCK_SIZE
    requires (other + 1) * BLOCK_SIZE <= |s| && other != id
    ensures BlockOf(WithBlock(s, id, data), other) == BlockOf(s, other)
  {
    var w := WithBlock(s, id, data);
    forall k | 0 <= k < BLOCK_SIZE
      ensures BlockOf(w, other)[k] == BlockOf(s, other)[k]
    {
      var i := other * BLOCK_SIZE + k;
      if other < id {
        MulMono(other + 1, id, BLOCK_SIZE);
      } else {
        MulMono(id + 1, other, BLOCK_SIZE);
      }
      assert !(id * BLOCK_SIZE <= i < (id + 1) * BLOCK_SIZE);
    }
  }

  /** A later write to the same block wins. */
  lemma WriteTwice(s: seq<byte>, id: nat, d1: seq<byte>, d2: seq<byte>)
    requires (id + 1) * BLOCK_SIZE <= |s| && |d1| == BLOCK_SIZE && |d2| == BLOCK_SIZE
    ensures WithBlock(WithBlock(s, id, d1), id, d2) == WithBlock(s, id, d2)
  {
    var a := WithBlock(WithBlock(s, id, d1), id, d2);
    var b := WithBlock(s, id, d2);
    assert forall k :: 0 <= k < |s| ==> a[k] == b[k];
  }

  class RamDisk {
    const storage: array<byte>
    const blockCount: nat

    ghost predicate Valid()
      reads this
    {
      storage.Length == blockCount * BLOCK_SIZE
    }

    /** `new`: the storage must be a whole number of blocks. */
    constructor (storage: array<byte>)
      requires storage.Length % BLOCK_SIZE == 0
      ensures Valid() && this.storage == storage && blockCount == storage.Length / BLOCK_SIZE
    {
      this.storage := storage;
      blockCount := storage.Length / BLOCK_SIZE;
    }

    /** `get_block`: the bytes of block `id`, or `OutOfBounds`. */
    function GetBlock(id: nat): (r: BlockResult<seq<byte>>)
      requires Valid()
      reads this, storage
      ensures r.Err? <==> id >= blockCount
      ensures r.Err? ==> r.error == OutOfBounds
      ensures r.Ok? ==> (id + 1) * BLOCK_SIZE <= storage.Length && r.value == BlockOf(storage[..], id)
    {
      if id >= blockCount then Err(OutOfBounds)
      else
        BlockInside(id, blockCount);
        Ok(storage[id * BLOCK_SIZE..(id + 1) * BLOCK_SIZE])
    }

    /** `get_block_mut`: the first byte of block `id` within `storage`, or
        `OutOfBounds`. */
    function GetBlockMut(id: nat): (r: BlockResult<nat>)
      requires Valid()
      reads this
      ensures r.Err? <==> id >= blockCount
      ensures r.Err? ==> r.error == OutOfBounds
      ensures r.Ok? ==> r.value == id * BLOCK_SIZE && r.value + BLOCK_SIZE <= storage.Length
    {
      if id >= blockCount then Err(OutOfBounds)
      else
        BlockInside(id, blockCount);
        Ok(id * BLOCK_SIZE)
    }

    /** `read_block`: copy block `id` into `buffer`. */
    method ReadBlock(id: nat, buffer: array<byte>) returns (r: BlockResult<()>)
      requires Valid() && buffer.Length == BLOCK_SIZE && buffer != storage
      modifies buffer
      ensures r.Err? <==> id >= blockCount
      ensures r.Err? ==> r.error == OutOfBounds && buffer[..] == old(buffer[..])
      ensures r.Ok? ==> (id + 1) * BLOCK_SIZE <= storage.Length && buffer[..] == BlockOf(storage[..], id)
    {
      var block := GetBlock(id);
      if block.Err? {
        return Err(block.error);
      }
      CopyChunk(buffer, block.value, 0);
      assert buffer[..] == block.value;
      return Ok(());
    }

    /** `write_block`: replace block `id` by `buffer`. */
    method WriteBlock(id: nat, buffer: array<byte>) returns (r: BlockResult<()>)
      requires Valid() && buffer.Length == BLOCK_SIZE && buffer != storage
      modifies storage
      ensures r.Err? <==> id >= blockCount
      ensures r.Err? ==> r.error == OutOfBounds && storage[..] == old(storage[..])
      ensures r.Ok? ==> (id + 1) * BLOCK_SIZE <= storage.Length && storage[..] == WithBlock(old(storage[..]), id, buffer[..])
    {
      var start := GetBlockMut(id);
      if start.Err? {
        return Err(start.error);
      }
      CopyChunk(storage, buffer[..], start.value);
      BlockReplaced(old(storage[..]), storage[..], id, buffer[..]);
      return Ok(());
    }

    /** `block_count`: the storage holds exactly this many blocks. */
    function BlockCount(): (n: nat)
      requires Valid()
      reads this
      ensures n * BLOCK_SIZE == storage.Length
    {
      blockCount
    }
  }
}
