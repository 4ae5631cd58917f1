/** The block allocator with its free stacks, and the blocks that own its buffers. */
module BlockMemory {
  import opened Wrappers
  import opened Primitives

  type Buffer = array<Byte>

  const BUCKETS: seq<nat> := [16, 32, 64, 128, 256, 512, 1024, 2048]

  const MAX_COUNT_BELOW_128: nat := 256
  const MAX_COUNT_BELOW_512: nat := 32
  const MAX_COUNT_BIG: nat := 8

  /** The smallest bucket that fits, or -1. */
  function RoundUpToBucket(size: nat): (index: int)
    ensures index == -1 <==> forall i :: 0 <= i < |BUCKETS| ==> BUCKETS[i] < size
    ensures index != -1 ==> 0 <= index < |BUCKETS| && size <= BUCKETS[index] && (index > 0 ==> BUCKETS[index-1] < size)
  {
    if size <= 16 then 0
    else if size <= 32 then 1
    else if size <= 64 then 2
    else if size <= 128 then 3
    else if size <= 256 then 4
    else if size <= 512 then 5
    else if size <= 1024 then 6
    else if size <= 2048 then 7
    else -1
  }

  /** The length of the buffer for a block of the given size. */
  function Capacity(size: nat): (length: nat)
    ensures size <= length
  {
    var index := RoundUpToBucket(size);
    if index < 0 then size else BUCKETS[index]
  }

  lemma BucketFits(k: nat)
    requires k < |BUCKETS|
    ensures RoundUpToBucket(BUCKETS[k]) == k
  {
  }

  /** A stack grows by one more than the count it is compared with. */
  function MaxHeight(size: nat): nat {
    if size < 512 then MAX_COUNT_BELOW_512 + 1 else MAX_COUNT_BIG + 1
  }

  /** The stacks for the buckets hold up to 33 buffers below 512 bytes, and up to 9 from there on. */
  lemma StackHeights(k: nat)
    requires k < |BUCKETS|
    ensures BUCKETS[k] in {16, 32, 64, 128, 256} ==> MaxHeight(BUCKETS[k]) == 33
    ensures BUCKETS[k] in {512, 1024, 2048} ==> MaxHeight(BUCKETS[k]) == 9
    ensures BUCKETS[k] in {16, 32, 64, 128, 256, 512, 1024, 2048}
  {
  }

  class BlockStack {
    const size: nat
    var blockStack: seq<Buffer>

    constructor (size: nat)
      ensures this.size == size && blockStack == [] && Valid()
    {
      this.size, blockStack := size, [];
    }

    /** No buffer is on the stack twice. */
    ghost predicate Valid()
      reads this
    {
      && |blockStack| <= MaxHeight(size)
      && (forall i :: 0 <= i < |blockStack| ==> blockStack[i].Length == size)
      && (forall i, j :: 0 <= i < j < |blockStack| ==> blockStack[i] != blockStack[j])
    }

    /** A buffer filled with zeros: the one on top of the stack, or a new one. */
    method GetBlock() returns (block: Buffer)
      requires Valid() && size > 0
      modifies this, blockStack
      ensures Valid() && block.Length == size && block !in blockStack && (forall i :: 0 <= i < size ==> block[i] == 0)
      ensures if old(blockStack) == [] then fresh(block) && blockStack == [] else old(blockStack) == blockStack + [block]
    {
      if blockStack != [] {
        block := blockStack[|blockStack|-1];
        blockStack := blockStack[..|blockStack|-1];
        forall i | 0 <= i < block.Length { block[i] := 0; }
      } else {
        block := new Byte[size](_ => 0);
      }
    }

    /** The buffer goes on top unless the stack is full; then its memory is given back to the system. */
    method ReleaseBlock(memory: Buffer)
      requires Valid() && memory.Length == size && memory !in blockStack
      modifies this
      ensures Valid()
      ensures blockStack == if |old(blockStack)| < MaxHeight(size) then old(blockStack) + [memory] else old(blockStack)
    {
      if (size < 128 && |blockStack| > MAX_COUNT_BELOW_128) || (size < 512 && |blockStack| > MAX_COUNT_BELOW_512) ||
         (size >= 512 && |blockStack| > MAX_COUNT_BIG) {
        return;
      }
      blockStack := blockStack + [memory];
    }
  }

  class Manager {
    const blockStacks: seq<BlockStack>
    ghost var blocks: set<Block>    // all blocks between construction and destruction
    ghost var free: set<Buffer>     // the buffers on the stacks

    ghost predicate StacksValid()
      reads this`free, blockStacks
    {
      && |blockStacks| == |BUCKETS|
      && (forall i :: 0 <= i < |BUCKETS| ==> StackIsFree(blockStacks[i], BUCKETS[i]))
      && (forall i, j :: 0 <= i < j < |BUCKETS| ==> blockStacks[i] != blockStacks[j])
      && (forall b :: b in free ==> OnStack(b))
    }

    ghost predicate StackIsFree(s: BlockStack, size: nat)
      reads this`free, s
    {
      s.size == size && s.Valid() && forall k :: 0 <= k < |s.blockStack| ==> s.blockStack[k] in free
    }

    /** The buffer lies on the stack for its length. */
    ghost predicate OnStack(b: Buffer)
      requires |blockStacks| == |BUCKETS|
      reads blockStacks
    {
      RoundUpToBucket(b.Length) >= 0 && b in blockStacks[RoundUpToBucket(b.Length)].blockStack
    }

    /** A block without a buffer is empty; a buffer has the right capacity and is not free. */
    ghost predicate Owns(b: Block)
      reads this`free, b
    {
      && (b.data == null <==> b.size == 0)
      && (b.data != null ==> b.data.Length == Capacity(b.size) && b.data !in free)
    }

    /** Every buffer of these blocks has one owner. */
    ghost predicate Serves(kept: set<Block>)
      reads this`free, blockStacks, kept
    {
      && StacksValid() && (forall b :: b in kept ==> Owns(b))
      && (forall b, c :: b in kept && c in kept && b != c && b.data != null ==> b.data != c.data)
    }

    ghost predicate Valid()
      reads this, blockStacks, blocks
    {
      Serves(blocks)
    }

    /** The blocks keep their buffers, and these their bytes. */
    twostate predicate Undisturbed(kept: set<Block>)
      requires forall b :: b in kept ==> old(allocated(b))
      reads kept, set b | b in kept && b.data != null :: b.data
    {
      forall b :: b in kept ==>
        b.size == old(b.size) && b.data == old(b.data) && (b.data != null ==> b.data[..] == old(b.data[..]))
    }

    constructor ()
      ensures Valid() && blocks == {} && free == {}
    {
      hide AreEmptyStacks;
      var stacks := EmptyStacks();
      blockStacks, blocks, free := stacks, {}, {};
      new;
      EmptyStacksAreValid();
    }

    /** One stack for every bucket. */
    static method EmptyStacks() returns (stacks: seq<BlockStack>)
      ensures AreEmptyStacks(stacks) && |stacks| == |BUCKETS|
    {
      stacks := [];
      for i := 0 to |BUCKETS|
        invariant AreEmptyStacks(stacks) && |stacks| == i
      {
        var s := new BlockStack(BUCKETS[i]);
        stacks := stacks + [s];
      }
    }

    lemma EmptyStacksAreValid()
      requires AreEmptyStacks(blockStacks) && |blockStacks| == |BUCKETS| && free == {}
      ensures StacksValid()
    {
    }

    /** Empty stacks for the first buckets. */
    static ghost predicate AreEmptyStacks(stacks: seq<BlockStack>)
      reads stacks
    {
      && |stacks| <= |BUCKETS|
      && (forall i :: 0 <= i < |stacks| ==> stacks[i].size == BUCKETS[i] && stacks[i].Valid() && stacks[i].blockStack == [])
      && (forall i, j :: 0 <= i < j < |stacks| ==> stacks[i] != stacks[j])
    }

    /** A buffer that none of the blocks owns, filled with zeros; none for size 0. */
    method GetBlock(size: nat, ghost kept: set<Block>) returns (data: array?<Byte>)
      requires Serves(kept)
      modifies `free, blockStacks, free
      ensures Serves(kept) && Undisturbed(kept) && free <= old(free)
      ensures data == null <==> size == 0
      ensures data != null ==> data.Length == Capacity(size) && data !in free && data !in old(Buffers(kept))
      ensures data != null ==> (fresh(data) || data in old(free)) && forall i :: 0 <= i < data.Length ==> data[i] == 0
    {
      hide RoundUpToBucket, StacksValid;
      if size == 0 {
        return null;
      }
      var bucketIndex := RoundUpToBucket(size);
      if bucketIndex < 0 {
        data := new Byte[size](_ => 0);
      } else {
        data := TakeFrom(bucketIndex);
      }
    }

    /** A buffer from one of the stacks, or a new one of that length. */
    method TakeFrom(bucketIndex: nat) returns (data: Buffer)
      requires StacksValid() && bucketIndex < |BUCKETS|
      modifies `free, blockStacks, free
      ensures StacksValid() && data.Length == BUCKETS[bucketIndex] && forall i :: 0 <= i < data.Length ==> data[i] == 0
      ensures free == old(free) - {data} && (fresh(data) || data in old(free))
    {
      hide RoundUpToBucket;
      BucketFits(bucketIndex);
      var stack := blockStacks[bucketIndex];
      assert stack.blockStack != [] ==> stack.blockStack[|stack.blockStack|-1] in free;
      data := stack.GetBlock();
      free := free - {data};
      forall i | 0 <= i < |BUCKETS| ensures StackIsFree(blockStacks[i], BUCKETS[i]) {
        assert old(StackIsFree(blockStacks[i], BUCKETS[i]));
        BucketFits(i);
        assert i != bucketIndex ==> blockStacks[i].blockStack == old(blockStacks[i].blockStack) && BUCKETS[i] != data.Length;
        forall k | 0 <= k < |blockStacks[i].blockStack| ensures blockStacks[i].blockStack[k] in free {
          assert blockStacks[i].blockStack[k] == old(blockStacks[i].blockStack[k]);
          assert blockStacks[i].blockStack[k] in blockStacks[i].blockStack;
        }
      }
      forall b | b in free ensures OnStack(b) {
        assert old(OnStack(b));
      }
    }

    /** The buffers of the blocks. */
    ghost function Buffers(kept: set<Block>): set<Buffer>
      reads kept
    {
      set b | b in kept && b.data != null :: b.data
    }

    /** Only the stack for the size has changed: the buffer is on top, unless the stack was full. */
    twostate predicate Released(size: nat, data: array?<Byte>)
      requires |blockStacks| == |BUCKETS|
      reads blockStacks
    {
      forall i :: 0 <= i < |BUCKETS| ==>
        if size != 0 && i == RoundUpToBucket(size) && |old(blockStacks[i].blockStack)| < MaxHeight(BUCKETS[i])
        then data != null && blockStacks[i].blockStack == old(blockStacks[i].blockStack) + [data]
        else blockStacks[i].blockStack == old(blockStacks[i].blockStack)
    }

    /** One more block with a buffer of its own. */
    lemma ServesWith(kept: set<Block>, b: Block)
      requires Serves(kept) && Owns(b) && b !in kept && (b.data == null || b.data !in Buffers(kept))
      ensures Serves(kept + {b})
    {
    }

    lemma ServesWithout(kept: set<Block>, b: Block)
      requires Serves(kept) && b in kept
      ensures Serves(kept - {b}) && Owns(b) && (b.data == null || b.data !in Buffers(kept - {b}))
      ensures (kept - {b}) + {b} == kept
    {
    }

    /** The buffer goes to the stack it came from, unless that is full; a large one is given back. */
    method ReleaseBlock(size: nat, data: array?<Byte>, ghost kept: set<Block>)
      requires Serves(kept) && (data == null <==> size == 0)
      requires data != null ==> data.Length == Capacity(size) && data !in free && data !in Buffers(kept)
      modifies `free, blockStacks
      ensures Serves(kept) && Released(size, data)
      ensures free <= old(free) + if data == null then {} else {data}
    {
      hide RoundUpToBucket, Manager.StackIsFree, Manager.OnStack;
      if size == 0 {
        return;
      }
      var bucketIndex := RoundUpToBucket(size);
      if bucketIndex >= 0 {
        PutBack(bucketIndex, data);
      }
    }

    /** One of the stacks takes the buffer if it is not full. */
    method PutBack(bucketIndex: nat, data: Buffer)
      requires StacksValid() && bucketIndex < |BUCKETS| && data.Length == BUCKETS[bucketIndex] && data !in free
      modifies `free, blockStacks
      ensures StacksValid() && old(free) <= free <= old(free) + {data}
      ensures forall i :: 0 <= i < |BUCKETS| ==>
        (blockStacks[i].blockStack ==
         if i == bucketIndex && |old(blockStacks[i].blockStack)| < MaxHeight(BUCKETS[i])
         then old(blockStacks[i].blockStack) + [data] else old(blockStacks[i].blockStack))
    {
      hide RoundUpToBucket;
      BucketFits(bucketIndex);
      ghost var height := |blockStacks[bucketIndex].blockStack|;
      assert data !in blockStacks[bucketIndex].blockStack by {
        assert StackIsFree(blockStacks[bucketIndex], BUCKETS[bucketIndex]);
      }
      blockStacks[bucketIndex].ReleaseBlock(data);
      if height < |blockStacks[bucketIndex].blockStack| {
        free := free + {data};
      }
      forall i | 0 <= i < |BUCKETS| ensures StackIsFree(blockStacks[i], BUCKETS[i]) {
        assert old(StackIsFree(blockStacks[i], BUCKETS[i]));
      }
      forall b | b in free ensures OnStack(b) {
        assert b != data ==> old(OnStack(b));
      }
    }
  }

  class Block {
    var size: nat
    var data: array?<Byte>

    /** The bytes of the block; the buffer may be longer. */
    ghost function Content(): seq<Byte>
      requires data != null ==> size <= data.Length
      reads this, data
    {
      if data == null then [] else data[..size]
    }

    /** A block of zeros. */
    constructor (m: Manager, size: nat)
      requires m.Valid()
      modifies m`blocks, m`free, m.blockStacks, m.free
      ensures m.Valid() && m.blocks == old(m.blocks) + {this} && this !in old(m.blocks)
      ensures m.Undisturbed(old(m.blocks))
      ensures this.size == size && Content() == seq(size, _ => 0)
      ensures data != null ==> (fresh(data) || data in old(m.free)) && data !in old(m.Buffers(m.blocks))
    {
      this.size, data := size, null;
      new;
      hide Manager.Serves, Manager.StacksValid;
      data := m.GetBlock(size, m.blocks);
      m.ServesWith(m.blocks, this);
      m.blocks := m.blocks + {this};
      assert data != null ==> data[..size] == seq(size, _ => 0);
    }

    /** memcpy into the own buffer. */
    method Fill(bytes: seq<Byte>)
      requires (data == null ==> bytes == []) && (data != null ==> |bytes| == size <= data.Length)
      modifies data
      ensures data != null ==> Content() == bytes
    {
      if data != null {
        forall i | 0 <= i < |bytes| { data[i] := bytes[i]; }
      }
    }

    /** A block with a copy of the bytes; without a pointer to them it stays a block of zeros. */
    static method FromBytes(m: Manager, size: nat, bytes: Option<seq<Byte>>) returns (b: Block)
      requires m.Valid() && (bytes.Some? ==> |bytes.value| == size)
      modifies m`blocks, m`free, m.blockStacks, m.free
      ensures m.Valid() && m.blocks == old(m.blocks) + {b} && b !in old(m.blocks)
      ensures m.Undisturbed(old(m.blocks))
      ensures b.size == size && (b.data != null ==> size <= b.data.Length)
      ensures b.Content() == if bytes.Some? then bytes.value else seq(size, _ => 0)
      ensures b.data != null ==> b.data !in old(m.Buffers(m.blocks))
    {
      b := new Block(m, size);
      m.ServesWithout(m.blocks, b);
      hide Manager.Serves, Manager.StacksValid;
      if size == 0 || bytes.None? {
        return;
      }
      b.Fill(bytes.value);
    }

    /** A copy has a buffer of its own. */
    static method Copy(m: Manager, other: Block) returns (b: Block)
      requires m.Valid() && other in m.blocks
      modifies m`blocks, m`free, m.blockStacks, m.free
      ensures m.Valid() && m.blocks == old(m.blocks) + {b} && b !in old(m.blocks)
      ensures m.Undisturbed(old(m.blocks))
      ensures b.size == other.size && (b.data != null ==> b.size <= b.data.Length) && b.Content() == other.Content()
      ensures b.data != null ==> b.data != other.data
    {
      m.ServesWithout(m.blocks, other);
      hide Manager.Serves, Manager.StacksValid;
      b := FromBytes(m, other.size, if other.data == null then None else Some(other.data[..other.size]));
    }

    /** The buffer changes its owner. */
    constructor Move(m: Manager, other: Block)
      requires m.Valid() && other in m.blocks
      modifies m`blocks, other
      ensures m.Valid() && m.blocks == old(m.blocks) + {this} && this !in old(m.blocks)
      ensures size == old(other.size) && data == old(other.data) && other.size == 0 && other.data == null
    {
      size, data := other.size, other.data;
      new;
      ghost var others := m.blocks - {other};
      m.ServesWithout(m.blocks, other);
      hide Manager.Serves, Manager.StacksValid;
      other.size, other.data := 0, null;
      m.ServesWith(others, other);
      m.ServesWith(m.blocks, this);
      m.blocks := m.blocks + {this};
    }

    /** The buffer of the block, if any, goes back to where it came from. */
    method Clear(m: Manager)
      requires m.Valid() && this in m.blocks
      modifies this, m`free, m.blockStacks
      ensures m.Valid() && size == 0 && data == null
      ensures |m.blockStacks| == |BUCKETS| && m.Released(old(size), old(data))
      ensures m.free <= old(m.free) + if old(data) == null then {} else {old(data)}
    {
      m.ServesWithout(m.blocks, this);
      assert |m.blockStacks| == |BUCKETS|;
      hide Manager.Serves, Manager.StacksValid;
      ghost var others := m.blocks - {this};
      if data != null {
        m.ReleaseBlock(size, data, others);
        data := null;
        size := 0;
      }
      m.ServesWith(others, this);
    }

    /** The part of move assignment behind the clearing. */
    method TakeOver(m: Manager, other: Block)
      requires m.Valid() && this in m.blocks && other in m.blocks && size == 0 && data == null
      modifies this, other
      ensures m.Valid() && other.size == 0 && other.data == null
      ensures this != other ==> size == old(other.size) && data == old(other.data)
    {
      ghost var others, rest := m.blocks - {this}, m.blocks - {this} - {other};
      m.ServesWithout(m.blocks, this);
      if this != other {
        m.ServesWithout(others, other);
      }
      hide Manager.Serves, Manager.StacksValid;
      size := other.size;
      data := other.data;
      other.size := 0;
      other.data := null;
      if this != other {
        m.ServesWith(rest, other);
      }
      m.ServesWith(others, this);
    }

    /** Move assignment; a block moved to itself ends up empty. */
    method MoveAssign(m: Manager, other: Block)
      requires m.Valid() && this in m.blocks && other in m.blocks
      modifies this, other, m`free, m.blockStacks
      ensures m.Valid() && m.Released(old(size), old(data))
      ensures size == (if this == other then 0 else old(other.size)) && data == (if this == other then null else old(other.data))
      ensures other.size == 0 && other.data == null
    {
      hide Manager.Serves;
      Clear(m);
      TakeOver(m, other);
    }

    /** The part of copy assignment behind the clearing. */
    method CopyFrom(m: Manager, other: Block)
      requires m.Valid() && this in m.blocks && other in m.blocks && size == 0 && data == null
      modifies this, m`free, m.blockStacks, m.free
      ensures m.Valid() && m.Undisturbed(m.blocks - {this}) && (data != null ==> size <= data.Length)
      ensures size == old(other.size) && Content() == old(other.Content())
      ensures (data == null <==> size == 0) && (data != null ==> data !in old(m.Buffers(m.blocks)))
    {
      ghost var others := m.blocks - {this};
      m.ServesWithout(m.blocks, this);
      if other.size == 0 {
        m.ServesWithout(m.blocks, other);
        return;
      }
      m.ServesWithout(others, other);
      hide Manager.Serves;
      size := other.size;
      Allocate(m, other.data[..size], others);
    }

    /** A buffer of the size of the block, with the bytes. */
    method Allocate(m: Manager, bytes: seq<Byte>, ghost kept: set<Block>)
      requires m.Serves(kept) && this !in kept && size == |bytes| > 0
      modifies `data, m`free, m.blockStacks, m.free
      ensures m.Serves(kept + {this}) && m.Undisturbed(kept)
      ensures data != null && size <= data.Length && Content() == bytes && data !in old(m.Buffers(kept))
    {
      hide Manager.Serves, Manager.StacksValid;
      data := m.GetBlock(size, kept);
      m.ServesWith(kept, this);
      Fill(bytes);
    }

    /** Copy assignment; a block copied to itself ends up empty. */
    method CopyAssign(m: Manager, other: Block)
      requires m.Valid() && this in m.blocks && other in m.blocks
      modifies this, data, m`free, m.blockStacks, m.free
      ensures m.Valid() && m.Undisturbed(m.blocks - {this}) && (data != null ==> size <= data.Length)
      ensures this != other ==> size == other.size && Content() == old(other.Content()) && (data != null ==> data != other.data)
      ensures this == other ==> size == 0 && data == null
    {
      m.ServesWithout(m.blocks, this);
      hide Manager.Serves, Manager.StacksValid, Manager.Released, Manager.Owns, Manager.Valid, RoundUpToBucket, Capacity;
      ghost var others := m.blocks - {this};
      Clear(m);
      label cleared:
      assert m.Undisturbed(others);
      CopyFrom(m, other);
      forall b | b in others
        ensures b.size == old(b.size) && b.data == old(b.data) && (b.data != null ==> b.data[..] == old(b.data[..]))
      {
        assert b.size == old@cleared(b.size) && b.data == old@cleared(b.data);
      }
      assert m.Undisturbed(others);
      hide Manager.Undisturbed;
    }

    /** The end of a block. */
    method Destroy(m: Manager)
      requires m.Valid() && this in m.blocks
      modifies this, m`blocks, m`free, m.blockStacks
      ensures m.Valid() && m.blocks == old(m.blocks) - {this} && m.Released(old(size), old(data))
    {
      Clear(m);
      m.ServesWithout(m.blocks, this);
      hide Manager.Serves, Manager.StacksValid;
      m.blocks := m.blocks - {this};
    }
  }
}
