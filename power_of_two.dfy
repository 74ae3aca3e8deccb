/**
 * The power-of-two free-list allocator of kma_p2fl.c: the size-class table
 * (`main_list`) stored at the base of the entry page, its set-up by
 * initialize_page, and the oversize and first-page rules of kma_malloc.
 * Class `i` holds buffers of 32 * 2^i bytes; classes 0 to 7 form the ladder
 * 32 ... 4096, class 8 is the whole-page class of 8192 bytes.
 */
module PowerOfTwo {
  import opened Options
  import opened Pages

  /** Number of `free_list_head`s in a `main_list`: buffer_32 up to buffer_8192. */
  const CLASSES: nat := 9
  /** Position of buffer_8192, the class a request of more than half a page is served from. */
  const WHOLE: nat := 8

  /**
   * A `free_list_head`: the buffer size of the class, the number of its
   * blocks in use, the number of blocks left, and the address of the first
   * free buffer (NULL when there is none).
   */
  datatype FreeListHead = FreeListHead(size: int, used: int, blocksLeft: int, start: int)

  /** What storing NULL into a whole `free_list_head` leaves: every field zero. */
  const CLEARED: FreeListHead := FreeListHead(0, 0, 0, NULL)

  /** 2 to the power `n`. */
  function Pow2(n: nat): (p: nat)
    ensures p >= 1
  {
    if n == 0 then 1 else 2 * Pow2(n - 1)
  }

  /** Buffer size of class `i`: 32 bytes doubled `i` times. */
  function ClassSize(i: nat): int
  {
    32 * Pow2(i)
  }

  /** `n` is 1 or is obtained from 1 by doubling. */
  predicate IsPowerOfTwo(n: int)
    decreases n
  {
    n == 1 || (n > 1 && n % 2 == 0 && IsPowerOfTwo(n / 2))
  }

  /** Every class size is a power of two, and each class is twice the one below it. */
  lemma {:induction false} ClassSizePowerOfTwo(i: nat)
    ensures IsPowerOfTwo(ClassSize(i))
    ensures i > 0 ==> ClassSize(i) == 2 * ClassSize(i - 1)
  {
    if i == 0 {
      assert IsPowerOfTwo(1);
      assert IsPowerOfTwo(2) && IsPowerOfTwo(4) && IsPowerOfTwo(8) && IsPowerOfTwo(16);
    } else {
      ClassSizePowerOfTwo(i - 1);
      var m := ClassSize(i - 1);
      assert ClassSize(i) == 2 * m;
      assert (2 * m) / 2 == m;
    }
  }

  /**
   * The layout initialize_page leaves for a request of at most half a page:
   * classes 32 to 4096 sized, none in use, every free stack empty.
   */
  ghost predicate LadderReady(heads: seq<FreeListHead>)
  {
    |heads| == CLASSES &&
    forall i :: 0 <= i < WHOLE ==>
      heads[i].size == ClassSize(i) && heads[i].used == 0 && heads[i].start == NULL
  }

  /**
   * The layout initialize_page leaves for a request of more than half a
   * page: classes 32 to 4096 cleared, and the 8192 class one page-sized
   * block with an empty free stack.
   */
  ghost predicate WholePageReady(heads: seq<FreeListHead>)
  {
    |heads| == CLASSES &&
    (forall i :: 0 <= i < WHOLE ==> heads[i] == CLEARED) &&
    heads[WHOLE].size == PAGESIZE && heads[WHOLE].blocksLeft == 1 && heads[WHOLE].start == NULL
  }

  /**
   * The ladder runs from 32 to half a page, each class twice the one below
   * it, every class a power of two that fits in half a page.
   */
  lemma LadderDoubles(heads: seq<FreeListHead>)
    requires LadderReady(heads)
    ensures heads[0].size == 32 && heads[WHOLE - 1].size == PAGESIZE / 2
    ensures forall i :: 0 < i < WHOLE ==> heads[i].size == 2 * heads[i - 1].size
    ensures forall i :: 0 <= i < WHOLE ==> IsPowerOfTwo(heads[i].size) && heads[i].size <= PAGESIZE / 2
  {
    forall i | 0 <= i < WHOLE
      ensures IsPowerOfTwo(heads[i].size) && (i > 0 ==> heads[i].size == 2 * heads[i - 1].size)
    {
      ClassSizePowerOfTwo(i);
    }
    assert ClassSize(7) == 4096 by {
      assert Pow2(7) == 128 by {
        assert Pow2(1) == 2 && Pow2(2) == 4 && Pow2(3) == 8 && Pow2(4) == 16 && Pow2(5) == 32 && Pow2(6) == 64;
      }
    }
    forall i | 0 <= i < WHOLE
      ensures heads[i].size <= PAGESIZE / 2
    {
      var j := i;
      while j < WHOLE - 1
        invariant i <= j <= WHOLE - 1
        invariant heads[i].size <= heads[j].size
      {
        assert heads[j + 1].size == 2 * heads[j].size;
        j := j + 1;
      }
    }
  }

  /**
   * A free stack (`buffer_header` chain): `stack` lists the buffers reached
   * from `start` by following each buffer's `nextblock` until NULL. Each
   * header holds only the link to the next buffer, so the chain is singly
   * linked.
   */
  ghost predicate FreeStack(start: int, next: map<int, int>, stack: seq<int>)
    decreases |stack|
  {
    if stack == [] then start == NULL
    else start == stack[0] && start != NULL && start in next && FreeStack(next[start], next, stack[1..])
  }

  /** The buffers of a free stack are determined by its start and the links in memory. */
  lemma {:induction false} FreeStackUnique(start: int, next: map<int, int>, s1: seq<int>, s2: seq<int>)
    requires FreeStack(start, next, s1) && FreeStack(start, next, s2)
    ensures s1 == s2
    decreases |s1|
  {
    if s1 != [] && s2 != [] {
      FreeStackUnique(next[start], next, s1[1..], s2[1..]);
      assert s1 == [s1[0]] + s1[1..];
      assert s2 == [s2[0]] + s2[1..];
    }
  }

  /**
   * Whatever memory holds, every class initialize_page prepares starts with
   * an empty free stack: the eight ladder classes in either layout, and the
   * 8192 class when it is the one set up.
   */
  lemma StacksStartEmpty(heads: seq<FreeListHead>, next: map<int, int>)
    requires LadderReady(heads) || WholePageReady(heads)
    ensures forall i, s :: 0 <= i < WHOLE && FreeStack(heads[i].start, next, s) ==> s == []
    ensures WholePageReady(heads) ==> forall s :: FreeStack(heads[WHOLE].start, next, s) ==> s == []
  {
    forall i, s | 0 <= i < CLASSES && heads[i].start == NULL && FreeStack(heads[i].start, next, s)
      ensures s == []
    {
      FreeStackUnique(heads[i].start, next, s, []);
    }
  }

  /**
   * A `main_list`, the record at the base of a page: the nine class heads,
   * buffer_32 up to buffer_8192, and the link to the next page's list
   * (`next_main_list`, NULL: none).
   */
  datatype MainList = MainList(
    buffer32: FreeListHead,
    buffer64: FreeListHead,
    buffer128: FreeListHead,
    buffer256: FreeListHead,
    buffer512: FreeListHead,
    buffer1024: FreeListHead,
    buffer2048: FreeListHead,
    buffer4096: FreeListHead,
    buffer8192: FreeListHead,
    nextMainList: int)
  {
    /** The class heads, smallest class first. */
    function Heads(): (hs: seq<FreeListHead>)
      ensures |hs| == CLASSES && hs[0] == buffer32 && hs[WHOLE] == buffer8192
    {
      [buffer32, buffer64, buffer128, buffer256, buffer512, buffer1024, buffer2048, buffer4096, buffer8192]
    }
  }

  /** The eight sizes initialize_page stores are the ladder's class sizes. */
  lemma LadderIsSet(heads: seq<FreeListHead>)
    requires |heads| == CLASSES
    requires heads[0].size == 32 && heads[1].size == 64 && heads[2].size == 128 && heads[3].size == 256
    requires heads[4].size == 512 && heads[5].size == 1024 && heads[6].size == 2048 && heads[7].size == 4096
    requires forall i :: 0 <= i < WHOLE ==> heads[i].used == 0 && heads[i].start == NULL
    ensures LadderReady(heads)
  {
    assert Pow2(1) == 2 && Pow2(2) == 4 && Pow2(3) == 8 && Pow2(4) == 16;
    assert Pow2(5) == 32 && Pow2(6) == 64 && Pow2(7) == 128;
  }

  /** The allocator's global state: `entry_point` and the `main_list` stored at the entry page's base. */
  class Allocator {
    /** `entry_point`: the first page, None until a request is first served. */
    var entryPoint: Option<PageDesc>
    /** The `main_list` at the base of the entry page. */
    var mainList: MainList

    /** Once the entry page is held, its list has one of the two layouts initialize_page writes. */
    ghost predicate Valid()
      reads this
    {
      entryPoint != None ==> LadderReady(mainList.Heads()) || WholePageReady(mainList.Heads())
    }

    /** The state before the first request: no entry page; `memory` is what the page holds before it is set up. */
    constructor (memory: MainList)
      ensures Valid() && entryPoint == None && mainList == memory
    {
      entryPoint := None;
      mainList := memory;
    }

    /**
     * kma_malloc: a request larger than a page is refused and changes
     * nothing. Otherwise, only when no entry page is held yet, the page `p`
     * the provider hands out becomes the entry page and its list is set up
     * for the request's size; later requests leave both alone.
     */
    method KmaMalloc(size: nat, p: PageDesc) returns (rejected: bool)
      requires Valid()
      modifies this
      ensures Valid()
      ensures rejected <==> size > PAGESIZE
      ensures rejected || old(entryPoint) != None ==>
        entryPoint == old(entryPoint) && mainList == old(mainList)
      ensures !rejected && old(entryPoint) == None ==>
        entryPoint == Some(p) && mainList.nextMainList == old(mainList.nextMainList) &&
        (if size > PAGESIZE / 2 then WholePageReady(mainList.Heads()) else LadderReady(mainList.Heads()))
      ensures !rejected && old(entryPoint) == None && size > PAGESIZE / 2 ==>
        mainList.buffer8192.used == old(mainList.buffer8192.used)
      ensures !rejected && old(entryPoint) == None && size <= PAGESIZE / 2 ==>
        mainList.buffer8192 == old(mainList.buffer8192) &&
        forall i :: 0 <= i < WHOLE ==> mainList.Heads()[i].blocksLeft == old(mainList.Heads()[i].blocksLeft)
    {
      if size > PAGESIZE {
        return true;
      }
      if entryPoint == None {
        entryPoint := Some(p);
        InitializePage(size);
      }
      return false;
    }

    /**
     * initialize_page: for a request of more than half a page, clear the
     * ladder and make the 8192 class one page-sized block; otherwise size
     * the ladder 32 ... 4096 with nothing used and empty free stacks, and
     * leave the 8192 class alone. Nothing else in the list is written.
     */
    method InitializePage(size: int)
      modifies this
      ensures entryPoint == old(entryPoint) && mainList.nextMainList == old(mainList.nextMainList)
      ensures size > PAGESIZE / 2 ==>
        WholePageReady(mainList.Heads()) && mainList.buffer8192.used == old(mainList.buffer8192.used)
      ensures size <= PAGESIZE / 2 ==>
        LadderReady(mainList.Heads()) && mainList.buffer8192 == old(mainList.buffer8192) &&
        forall i :: 0 <= i < WHOLE ==> mainList.Heads()[i].blocksLeft == old(mainList.Heads()[i].blocksLeft)
    {
      var m := mainList;
      if size > PAGESIZE / 2 {
        m := m.(buffer32 := CLEARED);
        m := m.(buffer64 := CLEARED);
        m := m.(buffer128 := CLEARED);
        m := m.(buffer256 := CLEARED);
        m := m.(buffer512 := CLEARED);
        m := m.(buffer1024 := CLEARED);
        m := m.(buffer2048 := CLEARED);
        m := m.(buffer4096 := CLEARED);

        m := m.(buffer8192 := m.buffer8192.(size := 8192));
        m := m.(buffer8192 := m.buffer8192.(blocksLeft := 1));
        m := m.(buffer8192 := m.buffer8192.(start := NULL));
      } else {
        m := m.(buffer32 := m.buffer32.(size := 32));
        m := m.(buffer64 := m.buffer64.(size := 64));
        m := m.(buffer128 := m.buffer128.(size := 128));
        m := m.(buffer256 := m.buffer256.(size := 256));
        m := m.(buffer512 := m.buffer512.(size := 512));
        m := m.(buffer1024 := m.buffer1024.(size := 1024));
        m := m.(buffer2048 := m.buffer2048.(size := 2048));
        m := m.(buffer4096 := m.buffer4096.(size := 4096));

        m := m.(buffer32 := m.buffer32.(used := 0));
        m := m.(buffer64 := m.buffer64.(used := 0));
        m := m.(buffer128 := m.buffer128.(used := 0));
        m := m.(buffer256 := m.buffer256.(used := 0));
        m := m.(buffer512 := m.buffer512.(used := 0));
        m := m.(buffer1024 := m.buffer1024.(used := 0));
        m := m.(buffer2048 := m.buffer2048.(used := 0));
        m := m.(buffer4096 := m.buffer4096.(used := 0));

        m := m.(buffer32 := m.buffer32.(start := NULL));
        m := m.(buffer64 := m.buffer64.(start := NULL));
        m := m.(buffer128 := m.buffer128.(start := NULL));
        m := m.(buffer256 := m.buffer256.(start := NULL));
        m := m.(buffer512 := m.buffer512.(start := NULL));
        m := m.(buffer1024 := m.buffer1024.(start := NULL));
        m := m.(buffer2048 := m.buffer2048.(start := NULL));
        m := m.(buffer4096 := m.buffer4096.(start := NULL));
        LadderIsSet(m.Heads());
      }
      mainList := m;
    }
  }
}
