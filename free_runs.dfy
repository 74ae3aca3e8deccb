/**
 * The free-run list of the resource-map allocator (kma_rm3.c) seen as a value:
 * the runs in list order, each a base address and a length. The imperative
 * engine in resource_map.dfy is proved against the functions of this module,
 * and the properties of first fit and of splitting are proved here.
 */
module FreeRuns {
  import opened Options

  /** One free run: `size` bytes starting at address `base` (a `pair_t` seen from outside). */
  datatype Run = Run(base: int, size: int)

  /** Whether address `a` is one of the bytes run `r` covers. */
  predicate Covers(r: Run, a: int)
  {
    r.base <= a < r.base + r.size
  }

  /** Bases strictly increasing in list order. */
  ghost predicate Sorted(runs: seq<Run>)
  {
    forall i, j :: 0 <= i < j < |runs| ==> runs[i].base < runs[j].base
  }

  /**
   * Runs in address order, each of non-negative length, each ending strictly
   * before the next one begins: no overlap and no two runs touching.
   */
  ghost predicate Separated(runs: seq<Run>)
  {
    (forall i :: 0 <= i < |runs| ==> runs[i].size >= 0) &&
    (forall i, j {:trigger EndsBefore(runs, i, j)} :: 0 <= i < j < |runs| ==> EndsBefore(runs, i, j))
  }

  /** Run `i` ends strictly before run `j` begins. */
  ghost predicate EndsBefore(runs: seq<Run>, i: int, j: int)
    requires 0 <= i < j < |runs|
  {
    runs[i].base + runs[i].size < runs[j].base
  }

  /** What Separated says about every pair of runs. */
  lemma SeparatedPairs(runs: seq<Run>)
    requires Separated(runs)
    ensures forall i, j :: 0 <= i < j < |runs| ==> runs[i].base + runs[i].size < runs[j].base
  {
    forall i, j | 0 <= i < j < |runs|
      ensures runs[i].base + runs[i].size < runs[j].base
    {
      assert EndsBefore(runs, i, j);
    }
  }

  /** Total number of free bytes in the list. */
  function TotalFree(runs: seq<Run>): int
  {
    if runs == [] then 0 else runs[0].size + TotalFree(runs[1..])
  }

  /** `runs` without its element at position `k`. */
  function RemoveAt(runs: seq<Run>, k: nat): (s: seq<Run>)
    requires k < |runs|
    ensures |s| == |runs| - 1
    ensures forall j :: 0 <= j < k ==> s[j] == runs[j]
    ensures forall j :: k <= j < |s| ==> s[j] == runs[j + 1]
  {
    runs[..k] + runs[k + 1..]
  }

  /**
   * Where a run with base `base` belongs: scanning from the head, the first
   * position whose run does not lie below `base`.
   */
  function InsertIndex(runs: seq<Run>, base: int): (i: nat)
    ensures i <= |runs|
    ensures i < |runs| ==> base <= runs[i].base
  {
    if runs == [] || base <= runs[0].base then 0 else 1 + InsertIndex(runs[1..], base)
  }

  /** Every run the scan passes lies below `base`. */
  lemma {:induction false} InsertIndexBelow(runs: seq<Run>, base: int)
    ensures forall j :: 0 <= j < InsertIndex(runs, base) ==> runs[j].base < base
  {
    if runs != [] && base > runs[0].base {
      InsertIndexBelow(runs[1..], base);
    }
  }

  /** `r` inserted into `runs` at its address position (the intended add_pair). */
  function InsertSorted(runs: seq<Run>, r: Run): (s: seq<Run>)
    ensures |s| == |runs| + 1
    ensures s[InsertIndex(runs, r.base)] == r
  {
    var i := InsertIndex(runs, r.base);
    runs[..i] + [r] + runs[i..]
  }

  /** Inserting adds exactly the new run: the result is a permutation of the old runs plus `r`. */
  lemma InsertSortedPermutes(runs: seq<Run>, r: Run)
    ensures multiset(InsertSorted(runs, r)) == multiset(runs) + multiset{r}
  {
    var i := InsertIndex(runs, r.base);
    assert runs == runs[..i] + runs[i..];
  }

  /**
   * add_pair on a non-empty list: a run whose base equals the head's base
   * replaces the whole list (the "new page" branch), any other run is
   * inserted at its address position.
   */
  function AddPairSpec(runs: seq<Run>, r: Run): (s: seq<Run>)
    requires runs != []
    ensures r.base == runs[0].base ==> s == [r]
  {
    if r.base == runs[0].base then [r] else InsertSorted(runs, r)
  }

  /**
   * add_pair for a base other than the head's loses and duplicates nothing:
   * the result is the old runs plus `r`. At the head's base every other run
   * is dropped.
   */
  lemma AddPairSpecPermutes(runs: seq<Run>, r: Run)
    requires runs != []
    ensures r.base != runs[0].base ==> multiset(AddPairSpec(runs, r)) == multiset(runs) + multiset{r}
    ensures r.base == runs[0].base ==> multiset(AddPairSpec(runs, r)) == multiset{r}
  {
    InsertSortedPermutes(runs, r);
  }

  /**
   * First fit: the position of the first run, in list order, at least `size`
   * long; None when no run is long enough.
   */
  function FirstFit(runs: seq<Run>, size: int): (k: Option<nat>)
    ensures k.Some? ==> k.value < |runs| && runs[k.value].size >= size
    ensures k.Some? ==> forall j :: 0 <= j < k.value ==> runs[j].size < size
    ensures k.None? <==> forall j :: 0 <= j < |runs| ==> runs[j].size < size
  {
    if runs == [] then None
    else if runs[0].size >= size then Some(0)
    else match FirstFit(runs[1..], size)
      case None => None
      case Some(j) => Some(j + 1)
  }

  /** First fit is characterised by its two ensures: a fitting run with no fitting run before it. */
  lemma FirstFitAt(runs: seq<Run>, size: int, k: nat)
    requires k < |runs| && runs[k].size >= size
    requires forall j :: 0 <= j < k ==> runs[j].size < size
    ensures FirstFit(runs, size) == Some(k)
  {
  }

  /** The block handed to the caller: the low `s` bytes of `r`. */
  function Block(r: Run, s: int): Run
  {
    Run(r.base, s)
  }

  /** The part of `r` that stays free after its low `s` bytes are handed out. */
  function Remainder(r: Run, s: int): Run
  {
    Run(r.base + s, r.size - s)
  }

  /** The list after serving `s` bytes from run `k`: the remainder takes the run's place. */
  function Split(runs: seq<Run>, k: nat, s: int): (t: seq<Run>)
    requires k < |runs|
    ensures |t| == |runs| && t[k].base == runs[k].base + s
    ensures t[k].base + t[k].size == runs[k].base + runs[k].size
    ensures forall j :: 0 <= j < |runs| && j != k ==> t[j] == runs[j]
  {
    runs[k := Remainder(runs[k], s)]
  }

  /**
   * The list a request of `size` bytes is served from: the list itself when
   * some run fits, otherwise the list with the run `extra` of a newly
   * acquired page added.
   */
  function WithRoomFor(runs: seq<Run>, size: int, extra: Run): seq<Run>
  {
    if FirstFit(runs, size).Some? then runs else InsertSorted(runs, extra)
  }

  /**
   * Splitting conserves bytes: the block has the requested length, and block
   * and remainder are disjoint and together cover exactly the old run.
   */
  lemma SplitCovers(r: Run, s: int)
    requires 0 <= s <= r.size
    ensures Block(r, s).size == s && Remainder(r, s).size == r.size - s
    ensures forall a :: Covers(r, a) <==> Covers(Block(r, s), a) || Covers(Remainder(r, s), a)
    ensures forall a :: !(Covers(Block(r, s), a) && Covers(Remainder(r, s), a))
  {
  }

  /** Splitting run `k` lowers the free total by exactly the bytes handed out. */
  lemma {:induction false} SplitTotal(runs: seq<Run>, k: nat, s: int)
    requires k < |runs|
    ensures TotalFree(Split(runs, k, s)) == TotalFree(runs) - s
  {
    if k == 0 {
      assert Split(runs, k, s)[1..] == runs[1..];
    } else {
      assert Split(runs, k, s)[1..] == Split(runs[1..], k - 1, s);
      SplitTotal(runs[1..], k - 1, s);
    }
  }

  /** Splitting keeps the list separated. */
  lemma SplitSeparated(runs: seq<Run>, k: nat, s: int)
    requires Separated(runs) && k < |runs| && 0 <= s <= runs[k].size
    ensures Separated(Split(runs, k, s))
  {
    var t := Split(runs, k, s);
    SeparatedPairs(runs);
    forall i, j | 0 <= i < j < |t|
      ensures EndsBefore(t, i, j)
    {
      assert runs[i].base + runs[i].size < runs[j].base;
    }
  }

  /** No byte of block `b` is covered by any run of `runs`. */
  ghost predicate Outside(runs: seq<Run>, b: Run)
  {
    forall j, a :: 0 <= j < |runs| && Covers(b, a) ==> !Covers(runs[j], a)
  }

  /**
   * The block handed to the caller is no longer free: it lies outside every
   * run of the split list, so no later request can be served its bytes.
   */
  lemma BlockApart(runs: seq<Run>, k: nat, s: int)
    requires Separated(runs) && k < |runs| && 0 <= s <= runs[k].size
    ensures Outside(Split(runs, k, s), Block(runs[k], s))
  {
    SeparatedPairs(runs);
  }

  /** A separated list is sorted by base. */
  lemma SeparatedSorted(runs: seq<Run>)
    requires Separated(runs)
    ensures Sorted(runs)
  {
    SeparatedPairs(runs);
  }

  /**
   * In a sorted list, the scan position of a base that is not in the list
   * separates the runs below it from the runs above it.
   */
  lemma InsertIndexSplitsList(runs: seq<Run>, base: int)
    requires Sorted(runs)
    ensures forall j :: 0 <= j < |runs| ==> (runs[j].base < base <==> j < InsertIndex(runs, base))
  {
    var i := InsertIndex(runs, base);
    forall j | i <= j < |runs|
      ensures base <= runs[j].base
    {
      if j > i {
        assert runs[i].base < runs[j].base;
      }
    }
  }

  /** Inserting a base absent from a sorted list keeps it sorted. */
  lemma {:induction false} InsertSortedSorted(runs: seq<Run>, r: Run)
    requires Sorted(runs)
    requires forall j :: 0 <= j < |runs| ==> runs[j].base != r.base
    ensures Sorted(InsertSorted(runs, r))
  {
    var i := InsertIndex(runs, r.base);
    var s := InsertSorted(runs, r);
    InsertIndexSplitsList(runs, r.base);
    forall a, b | 0 <= a < b < |s|
      ensures s[a].base < s[b].base
    {
      var ra := if a < i then runs[a] else if a == i then r else runs[a - 1];
      var rb := if b < i then runs[b] else if b == i then r else runs[b - 1];
      assert s[a] == ra by { assert s == runs[..i] + [r] + runs[i..]; }
      assert s[b] == rb by { assert s == runs[..i] + [r] + runs[i..]; }
    }
  }

  /** add_pair keeps the list sorted when the new base is not already a run other than the head. */
  lemma AddPairSorted(runs: seq<Run>, r: Run)
    requires runs != [] && Sorted(runs)
    requires forall j :: 1 <= j < |runs| ==> runs[j].base != r.base
    ensures Sorted(AddPairSpec(runs, r))
  {
    if r.base != runs[0].base {
      InsertSortedSorted(runs, r);
    }
  }

  /**
   * Inserting a run that lies strictly before or strictly after each run of a
   * separated list keeps the list separated.
   */
  lemma InsertSeparated(runs: seq<Run>, r: Run)
    requires Separated(runs) && r.size >= 0
    requires forall j :: 0 <= j < |runs| ==>
      runs[j].base + runs[j].size < r.base || r.base + r.size < runs[j].base
    ensures Separated(InsertSorted(runs, r))
  {
    var s := InsertSorted(runs, r);
    forall a, b | 0 <= a < b < |s|
      ensures EndsBefore(s, a, b)
    {
      InsertSeparatedPair(runs, r, a, b);
    }
  }

  /** One pair of positions of `InsertSorted(runs, r)`, for InsertSeparated. */
  lemma InsertSeparatedPair(runs: seq<Run>, r: Run, a: nat, b: nat)
    requires Separated(runs) && r.size >= 0
    requires forall j :: 0 <= j < |runs| ==>
      runs[j].base + runs[j].size < r.base || r.base + r.size < runs[j].base
    requires a < b < |runs| + 1
    ensures InsertSorted(runs, r)[a].base + InsertSorted(runs, r)[a].size < InsertSorted(runs, r)[b].base
  {
    var i := InsertIndex(runs, r.base);
    var s := InsertSorted(runs, r);
    InsertSortedShape(runs, r);
    InsertIndexBelow(runs, r.base);
    SeparatedPairs(runs);
    if a == i {
      InsertIndexSplitsList(runs, r.base);
      assert s[b] == runs[b - 1] && i <= b - 1;
      assert r.base <= runs[b - 1].base;
    } else if b == i {
      assert s[a] == runs[a] && a < i;
    } else {
      var ja := if a < i then a else a - 1;
      var jb := if b < i then b else b - 1;
      assert s[a] == runs[ja] && s[b] == runs[jb] && ja < jb;
    }
  }

  /** Where each element of `InsertSorted(runs, r)` comes from. */
  lemma InsertSortedShape(runs: seq<Run>, r: Run)
    ensures forall a :: 0 <= a < |InsertSorted(runs, r)| ==>
      InsertSorted(runs, r)[a] ==
        if a < InsertIndex(runs, r.base) then runs[a]
        else if a == InsertIndex(runs, r.base) then r
        else runs[a - 1]
  {
    var i := InsertIndex(runs, r.base);
    assert InsertSorted(runs, r) == runs[..i] + [r] + runs[i..];
  }

  /**
   * Serving a request by adding the remainder (add_pair) and then unlinking
   * the chosen run (delete_pair) is the same as replacing the chosen run by
   * its remainder in place.
   */
  lemma AddThenDeleteIsSplit(runs: seq<Run>, k: nat, s: int)
    requires Separated(runs) && k < |runs| && 0 < s <= runs[k].size
    ensures forall j :: 0 <= j < |runs| ==> runs[j].base != runs[k].base + s
    ensures InsertIndex(runs, runs[k].base + s) == k + 1
    ensures RemoveAt(InsertSorted(runs, Remainder(runs[k], s)), k) == Split(runs, k, s)
  {
    RemainderPosition(runs, k, s);
    InsertSortedShape(runs, Remainder(runs[k], s));
    var t := InsertSorted(runs, Remainder(runs[k], s));
    var u := RemoveAt(t, k);
    forall j | 0 <= j < |u|
      ensures u[j] == Split(runs, k, s)[j]
    {
      if j < k {
        assert u[j] == t[j];
      } else {
        assert u[j] == t[j + 1];
      }
    }
  }

  /**
   * find_space's two steps on a separated list: after add_pair of the
   * remainder of run `k`, run `k` is still at position `k`, and unlinking it
   * leaves the list with run `k` replaced by its remainder.
   */
  lemma ServeSteps(runs: seq<Run>, k: nat, s: int)
    requires Separated(runs) && k < |runs| && 0 < s <= runs[k].size
    ensures forall j :: 0 <= j < |runs| ==> runs[j].base != runs[k].base + s
    ensures var mid := AddPairSpec(runs, Remainder(runs[k], s));
      k < |mid| && mid[k] == runs[k] && RemoveAt(mid, k) == Split(runs, k, s)
  {
    AddThenDeleteIsSplit(runs, k, s);
    InsertSortedShape(runs, Remainder(runs[k], s));
  }

  /** The remainder of run `k` is no run's base and belongs right after run `k`. */
  lemma RemainderPosition(runs: seq<Run>, k: nat, s: int)
    requires Separated(runs) && k < |runs| && 0 < s <= runs[k].size
    ensures forall j :: 0 <= j < |runs| ==> runs[j].base != runs[k].base + s
    ensures InsertIndex(runs, runs[k].base + s) == k + 1
  {
    var b := runs[k].base + s;
    SeparatedPairs(runs);
    InsertIndexBelow(runs, b);
    assert forall j :: 0 <= j <= k ==> runs[j].base < b;
    assert k + 1 < |runs| ==> b < runs[k + 1].base;
    forall j | k + 1 < j < |runs|
      ensures b < runs[j].base
    {
      assert runs[k].base + runs[k].size < runs[j].base;
    }
  }

  /**
   * When no run fits and a run that fits is added, first fit chooses the
   * added run, wherever it was inserted.
   */
  lemma FreshRunChosen(runs: seq<Run>, size: int, extra: Run)
    requires FirstFit(runs, size).None? && extra.size >= size
    ensures FirstFit(InsertSorted(runs, extra), size) == Some(InsertIndex(runs, extra.base))
  {
    var s := InsertSorted(runs, extra);
    var i := InsertIndex(runs, extra.base);
    assert s == runs[..i] + [extra] + runs[i..];
    forall j | 0 <= j < |s| && j != i
      ensures s[j].size < size
    {
      assert s[j] == if j < i then runs[j] else runs[j - 1];
    }
  }

  /** The list a request is served from always has a run that fits, when the extra run fits. */
  lemma WithRoomForFits(runs: seq<Run>, size: int, extra: Run)
    requires extra.size >= size
    ensures FirstFit(WithRoomFor(runs, size, extra), size).Some?
  {
    if FirstFit(runs, size).None? {
      FreshRunChosen(runs, size, extra);
    }
  }

  // ---------------------------------------------------------------------
  // add_pair and find_space as written (kma_rm3.c:99-147)
  // ---------------------------------------------------------------------

  /**
   * Where the loop at kma_rm3.c:134-137 stops: at the first run not below
   * `base`, or at the last run.
   */
  function AsWrittenScanStop(runs: seq<Run>, base: int): (j: nat)
    requires runs != []
    ensures j < |runs|
    ensures forall m :: 0 <= m < j ==> runs[m].base < base
    ensures j < |runs| - 1 ==> base <= runs[j].base
  {
    if |runs| == 1 || base <= runs[0].base then 0 else 1 + AsWrittenScanStop(runs[1..], base)
  }

  /** add_pair as written: the new run is linked in after the node where the scan stopped. */
  function AsWrittenAddPair(runs: seq<Run>, r: Run): (t: seq<Run>)
    requires runs != []
    ensures r.base == runs[0].base ==> t == [r]
    ensures r.base != runs[0].base ==> multiset(t) == multiset(runs) + multiset{r}
    ensures r.base > runs[0].base ==> t[AsWrittenScanStop(runs, r.base) + 1] == r
  {
    if r.base < runs[0].base then [r] + runs
    else if r.base == runs[0].base then [r]
    else
      var j := AsWrittenScanStop(runs, r.base);
      assert runs == runs[..j + 1] + runs[j + 1..];
      runs[..j + 1] + [r] + runs[j + 1..]
  }

  /** delete_pair on a list: the first run with the given base is unlinked. */
  function RemoveBase(runs: seq<Run>, base: int): (s: seq<Run>)
    ensures (forall j :: 0 <= j < |runs| ==> runs[j].base != base) ==> s == runs
    ensures (exists j :: 0 <= j < |runs| && runs[j].base == base) ==> |s| == |runs| - 1
  {
    if runs == [] then []
    else if runs[0].base == base then runs[1..]
    else
      assert forall j :: 1 <= j < |runs| ==> runs[j] == runs[1..][j - 1];
      [runs[0]] + RemoveBase(runs[1..], base)
  }

  /**
   * Unlinking by address is unlinking by position: when run `k` is the first
   * with base `base`, RemoveBase drops exactly that run.
   */
  lemma {:induction false} RemoveBaseAt(runs: seq<Run>, base: int, k: nat)
    requires k < |runs| && runs[k].base == base
    requires forall j :: 0 <= j < k ==> runs[j].base != base
    ensures RemoveBase(runs, base) == RemoveAt(runs, k)
  {
    if k > 0 {
      RemoveBaseAt(runs[1..], base, k - 1);
      assert RemoveAt(runs, k) == [runs[0]] + RemoveAt(runs[1..], k - 1);
    }
  }

  /** When `v` is the only run with its base, unlinking that base removes one copy of `v` and nothing else. */
  lemma {:induction false} RemoveBaseOne(runs: seq<Run>, v: Run)
    requires v in runs
    requires forall j :: 0 <= j < |runs| && runs[j].base == v.base ==> runs[j] == v
    ensures multiset(RemoveBase(runs, v.base)) == multiset(runs) - multiset{v}
  {
    assert runs == [runs[0]] + runs[1..];
    if runs[0].base != v.base {
      assert forall j :: 0 <= j < |runs[1..]| ==> runs[1..][j] == runs[j + 1];
      RemoveBaseOne(runs[1..], v);
    }
  }

  /**
   * find_space as written: add_pair of the remainder, then delete_pair of
   * the chosen run. On a sorted list and a request of at least one byte it
   * keeps exactly the runs of the intended split; only their order can be
   * wrong.
   */
  function AsWrittenSplit(runs: seq<Run>, k: nat, s: int): (t: seq<Run>)
    requires k < |runs|
    ensures 0 < s && Sorted(runs) ==> multiset(t) == multiset(Split(runs, k, s))
  {
    AsWrittenSplitKeepsRuns(runs, k, s);
    RemoveBase(AsWrittenAddPair(runs, Remainder(runs[k], s)), runs[k].base)
  }

  /** Splitting swaps one copy of run `k` for its remainder. */
  lemma SplitMultiset(runs: seq<Run>, k: nat, s: int)
    requires k < |runs|
    ensures multiset(Split(runs, k, s)) == multiset(runs) - multiset{runs[k]} + multiset{Remainder(runs[k], s)}
  {
    assert runs == runs[..k] + [runs[k]] + runs[k + 1..];
    assert Split(runs, k, s) == runs[..k] + [Remainder(runs[k], s)] + runs[k + 1..];
  }

  /** The two steps of find_space as written keep the multiset of the intended split. */
  lemma AsWrittenSplitKeepsRuns(runs: seq<Run>, k: nat, s: int)
    requires k < |runs|
    ensures 0 < s && Sorted(runs) ==>
      multiset(RemoveBase(AsWrittenAddPair(runs, Remainder(runs[k], s)), runs[k].base))
      == multiset(Split(runs, k, s))
  {
    if 0 < s && Sorted(runs) {
      var rem := Remainder(runs[k], s);
      assert rem.base != runs[0].base;
      var added := AsWrittenAddPair(runs, rem);
      forall j | 0 <= j < |added| && added[j].base == runs[k].base
        ensures added[j] == runs[k]
      {
        assert added[j] in multiset(added);
        assert added[j] in runs by {
          assert added[j] != rem;
        }
        var i :| 0 <= i < |runs| && runs[i] == added[j];
        assert i == k;
      }
      assert runs[k] in added by {
        assert runs[k] in multiset(added);
      }
      RemoveBaseOne(added, runs[k]);
      SplitMultiset(runs, k, s);
    }
  }

  /** The loop at kma_rm3.c:134 inserts one node too late: [100, 300] plus 200 gives [100, 300, 200]. */
  lemma AsWrittenAddPairUnsorted()
    ensures AsWrittenAddPair([Run(100, 10), Run(300, 10)], Run(200, 10))
            == [Run(100, 10), Run(300, 10), Run(200, 10)]
    ensures !Sorted(AsWrittenAddPair([Run(100, 10), Run(300, 10)], Run(200, 10)))
  {
    var runs := [Run(100, 10), Run(300, 10)];
    assert AsWrittenScanStop(runs[1..], 200) == 0;
    var t := AsWrittenAddPair(runs, Run(200, 10));
    assert t[1].base > t[2].base;
  }

  /**
   * Served from a middle run, find_space as written leaves the list out of
   * address order, while the split of the intended add_pair keeps it sorted.
   */
  lemma AsWrittenSplitUnsorted()
    ensures AsWrittenSplit([Run(100, 10), Run(200, 50), Run(400, 10)], 1, 20)
            == [Run(100, 10), Run(400, 10), Run(220, 30)]
    ensures !Sorted(AsWrittenSplit([Run(100, 10), Run(200, 50), Run(400, 10)], 1, 20))
    ensures Split([Run(100, 10), Run(200, 50), Run(400, 10)], 1, 20)
            == [Run(100, 10), Run(220, 30), Run(400, 10)]
  {
    var runs := [Run(100, 10), Run(200, 50), Run(400, 10)];
    assert AsWrittenScanStop(runs[2..], 220) == 0;
    assert AsWrittenScanStop(runs[1..], 220) == 1;
    var added := [Run(100, 10), Run(200, 50), Run(400, 10), Run(220, 30)];
    assert AsWrittenAddPair(runs, Run(220, 30)) == added;
    assert RemoveBase(added[1..], 200) == added[2..];
    var t := AsWrittenSplit(runs, 1, 20);
    assert t[1].base > t[2].base;
  }

  /**
   * A zero-byte request served from the head run, as written, empties the
   * whole list: the remainder has the head's base, so add_pair takes the
   * "new page" branch and cuts the list down to one node, which delete_pair
   * then unlinks. The intended split leaves the list as it was.
   */
  lemma AsWrittenZeroRequestEmptiesList(runs: seq<Run>)
    requires runs != []
    ensures AsWrittenSplit(runs, 0, 0) == []
    ensures Split(runs, 0, 0) == runs
  {
    assert AsWrittenAddPair(runs, Remainder(runs[0], 0)) == [runs[0]];
  }
}
