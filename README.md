# Kernel memory allocator: resource map and power-of-two table

This project models, in Dafny, the allocation paths of two kernel memory
allocators from the same repository and proves their properties.

**Resource map (`kma_rm3.c`).** Free memory is kept as *runs*. Each run is
described by a `pair_t` record (`size`, `nextblock`, `prevblock`) stored at the
run's own first address. All runs are on one doubly linked list, ordered by
address and rooted at the global `g_rmap`. The model covers:

- `kma_malloc`: refuses requests too large for one page next to the
  pointer-sized header, and acquires the first page;
- `new_page`: stores the page's back-pointer;
- `find_space`: first fit, and serving a request by splitting the chosen run;
- `add_pair`: inserts a run in address order;
- `delete_pair`: unlinks a run;
- `check_requested_size`.

**Power-of-two table (`kma_p2fl.c`).** The model covers:

- the `free_list_head` / `main_list` records;
- `initialize_page`: builds the class ladder 32 … 4096, or the single
  8192-byte class for a request of more than half a page;
- `kma_malloc`: refuses requests over a page, and sets up the entry page only
  when `entry_point` is NULL.

Files:

- `options.dfy`: module `Options`, the `Option` datatype (None stands for NULL).
- `pages.dfy`: module `Pages`, holding `PAGESIZE` (8192), `NULL` and `PageDesc`
  (`kma_page_t`: id and base address).
- `free_runs.dfy`: module `FreeRuns`, the run list as a value (`seq<Run>`).
  - `AddPairSpec` is the intended `add_pair`. A run at the head's base
    replaces the list, and any other run goes in at its address position
    (`InsertSorted`).
  - `RemoveAt` is `delete_pair` by list position, and `RemoveBase` is
    `delete_pair` by address.
  - `FirstFit` and `Split` are `find_space`.
  - Their lemmas prove ordering, separation, conservation and first fit.
  - `add_pair` and `find_space` are also modelled as written, with
    counterexamples.
- `resource_map.dfy`: module `ResourceMap`, class `Engine`, the imperative
  engine.
  - Memory is a map from addresses to the `pair_t` stored there (`pairs`),
    plus the back-pointer word of each page (`backPtr`).
  - `rmap` is `g_rmap`, and `head` is the list head.
  - A ghost `order` lists the node addresses in list order.
  - `WellLinked` ties `order` to the `nextblock`/`prevblock` links.
  - Every method is proved against the `FreeRuns` functions on
    `RunsOf(order, pairs)`.
- `power_of_two.dfy`: module `PowerOfTwo`.
  - `FreeListHead` and `MainList` are the page-resident records.
  - Class `Allocator` holds `entry_point` and the entry page's `main_list`.

The page provider (`get_page`/`getPage`, in `kma_page.h`, which is not part of
this model) is a parameter: the page `p` that it would hand out. The engine
requires that page to lie apart from every page already held, with a non-NULL
address (`Acquirable`).

## Model

| member | source | states |
|---|---|---|
| `FreeRuns.RemoveAt` | kma_rm3.c:149-170 | delete_pair on the run list: one run fewer; runs before position k are kept, and runs after it move down one place in the same order |
| `FreeRuns.InsertIndex` | kma_rm3.c:131-137 | the position a new base belongs at is within the list, and the run found there does not lie below the base |
| `FreeRuns.InsertIndexBelow` | kma_rm3.c:134-137 | every run before that position lies below the new base |
| `FreeRuns.AddPairSpec` | kma_rm3.c:126-128 | the intended add_pair: a run at the head's base leaves that run as the whole list (any other base goes through `InsertSorted`) |
| `FreeRuns.AddPairSpecPermutes` | kma_rm3.c:116-147 | add_pair for a base other than the head's adds the run to the old runs, losing and duplicating nothing; at the head's base only the new run is left |
| `FreeRuns.InsertSorted` | kma_rm3.c:121-146 | the intended add_pair for a base other than the head's (the prepend and splice branches) gives a list one longer, with the new run (its given length) at its address position |
| `FreeRuns.InsertSortedPermutes` | kma_rm3.c:121-146 | the intended add_pair for a base other than the head's loses and duplicates nothing: the result is the old runs plus the new one, as a multiset (at the head's base, add_pair instead drops every other run) |
| `FreeRuns.InsertSortedShape` | kma_rm3.c:138-145 | every other run keeps its base and length; runs below keep their position, runs above move up one place |
| `FreeRuns.FirstFit` | kma_rm3.c:103-110 | first fit: the chosen run is at least the requested length and every earlier run is shorter; None exactly when no run fits |
| `FreeRuns.Split` | kma_rm3.c:111-113 | find_space's effect on the list: the chosen run now starts `s` bytes later and still ends where it ended; every other run is unchanged |
| `FreeRuns.SplitCovers` | kma_rm3.c:111-113 | the caller's block has exactly the requested length, the remainder has the rest, and the two are disjoint and together cover exactly the old run |
| `FreeRuns.SplitTotal` | kma_rm3.c:111-113 | serving a request lowers the free total by exactly the requested bytes |
| `FreeRuns.BlockApart` | kma_rm3.c:111-113 | the block handed to the caller lies outside every run of the list find_space leaves, so no byte of it is free any more |
| `FreeRuns.SplitSeparated` | kma_rm3.c:111-113 | replacing a run by its remainder keeps the list separated (no overlap, no touching) |
| `FreeRuns.SeparatedSorted` | kma_rm3.c:116-147 | a separated list is sorted by base |
| `FreeRuns.InsertIndexSplitsList` | kma_rm3.c:134-137 | in a sorted list, a run lies below the new base exactly when it comes before the insert position |
| `FreeRuns.InsertSortedSorted` | kma_rm3.c:116-147 | inserting a base that is not already in a sorted list keeps the list sorted |
| `FreeRuns.AddPairSorted` | kma_rm3.c:116-147 | add_pair (including its equal-to-head branch) keeps the list sorted |
| `FreeRuns.InsertSeparated` | kma_rm3.c:105-108 | linking in a run that lies apart from every held run keeps the list separated |
| `FreeRuns.AddThenDeleteIsSplit` | kma_rm3.c:111-112 | adding the remainder and then deleting the chosen run is the same as replacing that run by its remainder in place |
| `FreeRuns.ServeSteps` | kma_rm3.c:111-112 | after add_pair of the remainder, the chosen run is still at its position, and delete_pair then leaves the split list |
| `FreeRuns.RemainderPosition` | kma_rm3.c:111 | the remainder's base is no run's base, and it belongs right after the chosen run |
| `FreeRuns.FreshRunChosen` | kma_rm3.c:105-110 | when nothing fits and a fitting page run is added, first fit chooses that run |
| `FreeRuns.WithRoomForFits` | kma_rm3.c:103-110 | the list a request is served from, grown by a page when needed, always has a run that fits |
| `FreeRuns.AsWrittenScanStop` | kma_rm3.c:134-137 | the loop as written stops at the first node not below the base, or at the last node |
| `FreeRuns.AsWrittenAddPair` | kma_rm3.c:116-147 | add_pair as written: a run at the head's base leaves only that run; any other run is added to the old runs, and above the head it lands right after the node where the scan stopped |
| `FreeRuns.RemoveBase` | kma_rm3.c:149-170 | delete_pair by address: a base no run has leaves the list unchanged, and a base some run has removes exactly one run |
| `FreeRuns.RemoveBaseAt` | kma_rm3.c:149-170 | unlinking by address removes the first run with that base, the same as unlinking by its list position |
| `FreeRuns.AsWrittenSplit` | kma_rm3.c:111-112 | find_space as written, on a sorted list and a request of at least one byte, keeps exactly the runs of the intended split; only their order can differ |
| `FreeRuns.AsWrittenAddPairUnsorted` | kma_rm3.c:134-145 | add_pair as written turns [100, 300] plus 200 into [100, 300, 200], which is not sorted |
| `FreeRuns.AsWrittenSplitUnsorted` | kma_rm3.c:111-145 | find_space as written, serving 20 bytes from the middle run of [100, 200, 400], leaves [100, 400, 220], while the intended split gives [100, 220, 400] |
| `FreeRuns.AsWrittenZeroRequestEmptiesList` | kma_rm3.c:111-128 | a zero-byte request served from the head, as written, empties the whole list; the intended split leaves it unchanged |
| `ResourceMap.RunsOf` | kma_rm3.c:52-57 | the run at list position i starts at the i-th node address, with the length stored in that node's pair |
| `ResourceMap.InsertLinked` | kma_rm3.c:139-145 | a node whose neighbours point to it and back stays well linked, and the list holds the old runs with the new run at that position |
| `ResourceMap.RemoveLinked` | kma_rm3.c:155-168 | unlinking a node by joining its neighbours (NULL at an end) stays well linked and removes exactly that run |
| `ResourceMap.PrependLinked` | kma_rm3.c:121-125 | a base below the head becomes the new head, linked to the old head; the result is add_pair's list |
| `ResourceMap.SoleLinked` | kma_rm3.c:126-128 | a base equal to the head leaves that pair as the only node; the result is add_pair's list |
| `ResourceMap.SpliceAfter` | kma_rm3.c:131-137 | when the scan stops at the last node below the base, the new run belongs right after it |
| `ResourceMap.SpliceLinked` | kma_rm3.c:138-145 | a splice after that node, fixing both neighbours' links, stays well linked and gives add_pair's list |
| `ResourceMap.CheckRequestedSize` | kma_rm3.c:172-178 | returns 0 exactly when the request plus the pointer-sized header exceeds a page, which are exactly the requests kma_malloc refuses (no value otherwise) |
| `ResourceMap.PageRunApart` | kma_rm3.c:93-97 | the body of a newly acquired page lies strictly apart from every held run |
| `ResourceMap.HomedAfterNewPage` | kma_rm3.c:105-108 | after a page's body is added, every run still lies inside an acquired page's body |
| `ResourceMap.HomedAfterSplit` | kma_rm3.c:111-113 | after a split, the remainder lies in the chosen run's page and every other run stays in its own |
| `ResourceMap.FirstRun` | kma_rm3.c:102 | the first page's body as the only run satisfies the list invariant |
| `ResourceMap.BookGrow` | kma_rm3.c:93-97 | acquiring a page apart from the held ones and storing its back-pointer keeps pages disjoint, with every back-pointer in place and g_rmap the newest page |
| `ResourceMap.GrowEnd` | kma_rm3.c:105-108 | after new_page and linking in the page's body, the list is the old list with that run inserted in address order, and the invariant holds |
| `ResourceMap.ServeEnd` | kma_rm3.c:111-113 | after add_pair and delete_pair, the list is the old list with the chosen run split, and the invariant holds |
| `ResourceMap.Engine.constructor` | kma_rm3.c:60 | the state before the first allocation: g_rmap NULL, no page, no run |
| `ResourceMap.Engine.KmaMalloc` | kma_rm3.c:70-84 | a request check_requested_size answers 0 for returns NULL and changes nothing; otherwise a page is acquired (back-pointer stored) only on the first call or when nothing fits, and the address returned is first fit's run, which is then split; the block handed out lies outside every run left free |
| `ResourceMap.Engine.NewPage` | kma_rm3.c:93-97 | g_rmap becomes the provider's page and its first word the page's id; nothing else changes |
| `ResourceMap.Engine.FindSpace` | kma_rm3.c:99-114 | returns the base of first fit's run, growing by a page when no run fits; the list becomes that split, the block handed out lies outside every run left, and the invariant is kept |
| `ResourceMap.Engine.ScanFit` | kma_rm3.c:103-110 | the scan stops at the first run that fits or, when none does, at the tail; every run it passes is too short |
| `ResourceMap.Engine.GrowByPage` | kma_rm3.c:105-108 | a page is acquired and its body linked in address order; the invariant is kept |
| `ResourceMap.Engine.ServeFrom` | kma_rm3.c:111-113 | the chosen run is replaced by its remainder in place; pages and g_rmap are unchanged |
| `ResourceMap.Engine.AddPair` | kma_rm3.c:116-147 | the list stays doubly linked and becomes add_pair's list: the new run at its address position, or the only run when its base is the head's |
| `ResourceMap.Engine.ScanBelow` | kma_rm3.c:132-137 | the scan stops at a node below the base whose successor is NULL or not below the base |
| `ResourceMap.Engine.DeletePair` | kma_rm3.c:149-170 | the list stays doubly linked, and exactly the given node is removed, with the other runs in their order |
| `PowerOfTwo.ClassSizePowerOfTwo` | kma_p2fl.c:139-146 | every class size is a power of two and twice the class below it |
| `PowerOfTwo.LadderDoubles` | kma_p2fl.c:139-146 | a ladder set up by initialize_page runs from 32 to half a page, each class double the previous, each a power of two of at most half a page |
| `PowerOfTwo.FreeStackUnique` | kma_p2fl.c:53-65 | a class's free stack is singly linked: its buffers are determined by its start and the next links |
| `PowerOfTwo.StacksStartEmpty` | kma_p2fl.c:157-164 | whatever memory holds, each class initialize_page prepares has an empty free stack |
| `PowerOfTwo.LadderIsSet` | kma_p2fl.c:139-164 | the eight sizes 32 … 4096, with used 0 and NULL starts, are exactly the ladder layout |
| `PowerOfTwo.Allocator.constructor` | kma_p2fl.c:82 | before the first request there is no entry page |
| `PowerOfTwo.Allocator.KmaMalloc` | kma_p2fl.c:93-106 | a request over a page is refused and changes nothing; the entry page is set up, for the request's size, only when none is held, leaving next_main_list alone, and leaving alone the 8192 class and the ladder's blocks_left (ladder) or the 8192 class's used count (whole page); later requests leave everything alone |
| `PowerOfTwo.Allocator.InitializePage` | kma_p2fl.c:114-168 | more than half a page: ladder cleared, the 8192 class one page-sized block with an empty stack; otherwise the ladder 32 … 4096 with used 0 and empty stacks, and the 8192 class untouched |

## Left out

- Release: `kma_free` is empty in both files (kma_rm3.c:86-91, kma_p2fl.c:108-112). There is no freeing, coalescing or returning of pages to model.
- kma_mck2.c, kma_rm.c and kma_rm2.c are not part of this model. They are incomplete drafts, and their coherent parts (the oversize check and the first-fit scan) are the ones modelled here.
- The page provider and its statistics: a fresh page is a parameter, required to lie apart from the pages already held.
- `PAGESIZE` is 8192 and a pointer (`sizeof(kma_page_t*)`, `sizeof(pair_t*)`) is 8 bytes. Both are assumptions: kma.h and kma_page.h, which define them, are not part of this model. The page size matches the largest class, `buffer_8192` (kma_p2fl.c:77, 133).
- Integer widths: sizes and addresses are unbounded integers, so no overflow of `kma_size_t` or of pointer arithmetic is modelled. Addresses are byte addresses, and `(void*)npair + size` is integer addition.
- Byte-level memory: a `pair_t` and the back-pointer word are records in maps keyed by address. Overlap between a pair record and the bytes handed out is not modelled beyond runs being disjoint.
- The list head is kept in its own field. The source stores it in `g_rmap->ptr`, overwriting the page descriptor's own address.
- A fresh page's free run: in the source, `find_space` reads the first `pair_t` at the page's base `g_rmap->ptr` itself (kma_rm3.c:102). That is the word `new_page` has just overwritten with the back-pointer (96), and `add_pair` compares bases against that same address (121, 126). No code writes a pair there. The model gives a fresh page one run covering its body after the back-pointer word: base `p.ptr + 8`, length `PAGESIZE - 8`. So the first block `ResourceMap.Engine.KmaMalloc` returns from a page is `p.ptr + 8`, where the source would return `p.ptr`.
- Page exhaustion follows the evident intent: the new page's body is linked in as a run, and that run is chosen (kma_rm3.c:105-109). As written, `new_page` only overwrites `g_rmap`, and the loop then follows a NULL link.
- The scan, growth and serving steps of `find_space` are the helper methods `ScanFit`, `GrowByPage` and `ServeFrom`. `ScanFit` stops at the tail when nothing fits, which is where the source's loop calls `new_page`.
- Compile errors in kma_rm3.c are read as the evident intent. The complete list:
  - `find_space` is declared and called without its size argument (65, 82), but defined with one (99);
  - `add_pair` and `delete_pair` are used before any declaration (111-112);
  - `nextptr` stands for `nextblock` (109);
  - `prev` and `next` stand for `prevblock` and `nextblock` (119, 123, 124, 128, 163);
  - members are read through `void *` values, with a `(pair_t*)` cast that binds to the member access rather than to the pointer (118-119, 123-124, 128, 133-134, 136, 138, 143-145);
  - a cast expression is assigned to, which C does not allow (118-119, 123, 128, 133, 143-145, 157, 164, 167-168);
  - `g_ptr` stands for `g_rmap` (157).
- `delete_pair` of the head dereferences the NULL `prevblock` (kma_rm3.c:163). The model clears the successor's `prevblock` and makes it the head.
- `add_pair` on an empty list dereferences NULL in the source. `ResourceMap.Engine.AddPair` requires a non-empty list, which is the only way `find_space` calls it.
- `ResourceMap.Engine.AddPair` also requires that the new base is not the address of any node after the head, which is always true of the remainder `find_space` adds.
- `ResourceMap.Engine.DeletePair` takes the node's list position as a ghost argument. The source locates the node by its address alone.
- An exact fit leaves a zero-length remainder run in the list, as the source does.
- An exact fit that ends at a page's end puts that zero-length remainder at `p.ptr + PAGESIZE`, the first address past the page. The source writes a `pair_t` there (kma_rm3.c:111, 118), outside the page. The model keeps pairs in a map of their own, so it does not capture that write clobbering memory past the page.
- `ResourceMap.CheckRequestedSize` has no value for a request that fits, because the source ends without a return statement (kma_rm3.c:172-178).
- `PowerOfTwo.Allocator.KmaMalloc` returns only whether the request was refused. On success the source returns no value (kma_p2fl.c:93-106), and the splitting of the page into buffers (166) is empty.
- kma_p2fl.c reads the list through `*page_ptr` and then `->ptr`, which does not type-check (120-121). The model takes the list stored at the entry page's base.
- Storing NULL into a whole `free_list_head` (124-131) is modelled as all fields zero.
- `blocks_left` (134) is not declared in `free_list_head`; the model adds it as a field.
- The 8192 class's `used` field is left as it was, because it is never written (123-135).
- `next_main_list` is never written.
- Memory before `initialize_page` is a constructor argument.

## Findings

| source | as written | input that shows it | evidently intended | confidence | as-written member | corrected member |
|---|---|---|---|---|---|---|
| kma_rm3.c:134-137 | The scan compares the current node with the new base and then links the new node in after the node where it stopped. That node is the first one not below the base, so the new node lands one place too late. | runs at 100 and 300, add_pair of a run at 200: the list becomes 100, 300, 200 | stop at the last node below the base (compare the next node's address), so the list stays sorted | high (not executed) | `FreeRuns.AsWrittenAddPairUnsorted` | `FreeRuns.InsertSortedSorted` |
| kma_rm3.c:111-128 | A zero-byte request served from the head gives a remainder at the head's own address. add_pair then takes the "base equal to head" branch and cuts the list down to that one node, which delete_pair unlinks: every free run is lost. | any non-empty list, kma_malloc(0) | a zero-byte request leaves the list unchanged | high (not executed) | `FreeRuns.AsWrittenZeroRequestEmptiesList` | `ResourceMap.Engine.FindSpace` |
