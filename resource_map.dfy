/**
 * The resource-map engine of kma_rm3.c: one address-ordered, doubly linked
 * list of free runs whose nodes (`pair_t`) live at the addresses they
 * describe, rooted at the global `g_rmap`. Memory is modelled as a map from
 * addresses to the records stored there; the list order is a ghost sequence
 * of node addresses tied to the links by `WellLinked`.
 */
module ResourceMap {
  import opened Options
  import opened Pages
  import opened FreeRuns

  /** `sizeof(kma_page_t*)`, equal to `sizeof(pair_t*)`: the overhead kma_malloc reserves; assumed to be 8 (a 64-bit pointer). */
  const PTR_SIZE: int := 8

  /** A `pair_t`: run length and the addresses of the next and previous pairs (NULL at the ends). */
  datatype Pair = Pair(size: int, nextblock: int, prevblock: int)

  /** The run a fresh page contributes: its whole body after the back-pointer word. */
  function PageRun(p: PageDesc): Run
  {
    Run(p.ptr + PTR_SIZE, PAGESIZE - PTR_SIZE)
  }

  /** Run `r` lies in the body of page `p`, after its back-pointer word. */
  ghost predicate InBody(r: Run, p: PageDesc)
  {
    p.ptr + PTR_SIZE <= r.base && r.base + r.size <= p.ptr + PAGESIZE
  }

  /** Two pages do not overlap. */
  ghost predicate Apart(p: PageDesc, q: PageDesc)
  {
    p.ptr + PAGESIZE <= q.ptr || q.ptr + PAGESIZE <= p.ptr
  }

  ghost predicate PagesApart(pages: seq<PageDesc>)
  {
    forall i, j {:trigger Apart(pages[i], pages[j])} :: 0 <= i < j < |pages| ==> Apart(pages[i], pages[j])
  }

  /** A page the provider may hand out: not at address NULL, overlapping no page already held. */
  ghost predicate Acquirable(p: PageDesc, pages: seq<PageDesc>)
  {
    p.ptr > NULL && forall i :: 0 <= i < |pages| ==> Apart(pages[i], p)
  }

  /** The runs described by the pairs at the addresses in `order`, in that order. */
  function RunsOf(order: seq<int>, pairs: map<int, Pair>): (runs: seq<Run>)
    requires forall i :: 0 <= i < |order| ==> order[i] in pairs
    ensures |runs| == |order|
    ensures forall i {:trigger runs[i]} :: 0 <= i < |order| ==> runs[i] == Run(order[i], pairs[order[i]].size)
  {
    seq(|order|, i requires 0 <= i < |order| => Run(order[i], pairs[order[i]].size))
  }

  /**
   * Node `i` of the list: its `nextblock` is the following node and its
   * `prevblock` the preceding one, NULL at the two ends.
   */
  ghost predicate NodeLinked(order: seq<int>, pairs: map<int, Pair>, i: int)
    requires 0 <= i < |order| && order[i] in pairs
  {
    pairs[order[i]].nextblock == (if i + 1 < |order| then order[i + 1] else NULL) &&
    pairs[order[i]].prevblock == (if i == 0 then NULL else order[i - 1])
  }

  /** The node at position `i` lies at a lower address than the node at position `j`. */
  ghost predicate Ascending(order: seq<int>, i: int, j: int)
    requires 0 <= i < j < |order|
  {
    order[i] < order[j]
  }

  /**
   * The pairs at the addresses in `order` form a doubly linked list in that
   * order, starting at `head`: every node in memory at a non-NULL address
   * and linked to its neighbours, addresses strictly increasing, and `head` NULL exactly when the list is
   * empty.
   */
  ghost predicate WellLinked(order: seq<int>, pairs: map<int, Pair>, head: int)
  {
    (forall i :: 0 <= i < |order| ==> order[i] > NULL && order[i] in pairs) &&
    (forall i {:trigger NodeLinked(order, pairs, i)} :: 0 <= i < |order| ==> NodeLinked(order, pairs, i)) &&
    (forall i, j {:trigger Ascending(order, i, j)} :: 0 <= i < j < |order| ==> Ascending(order, i, j)) &&
    head == (if order == [] then NULL else order[0])
  }

  /** What WellLinked says about the node at position `j`. */
  lemma LinkAt(o: seq<int>, ps: map<int, Pair>, h: int, j: nat)
    requires WellLinked(o, ps, h) && j < |o|
    ensures o[j] > NULL && o[j] in ps
    ensures ps[o[j]].nextblock == if j + 1 < |o| then o[j + 1] else NULL
    ensures ps[o[j]].prevblock == if j == 0 then NULL else o[j - 1]
  {
    assert NodeLinked(o, ps, j);
  }

  /** The addresses of a well-linked list strictly increase. */
  lemma Increasing(o: seq<int>, ps: map<int, Pair>, h: int)
    requires WellLinked(o, ps, h)
    ensures forall i, j :: 0 <= i < j < |o| ==> o[i] < o[j]
  {
    forall i, j | 0 <= i < j < |o|
      ensures o[i] < o[j]
    {
      assert Ascending(o, i, j);
    }
  }

  /**
   * Linking a node in at position `i` of a well-linked list: the new node
   * points to its two neighbours, they point back to it, and nothing else
   * changes. The result is well linked and describes the old runs with the
   * new one inserted at position `i`.
   */
  lemma InsertLinked(o: seq<int>, ps: map<int, Pair>, i: nat, base: int, size: int, ps2: map<int, Pair>)
    requires WellLinked(o, ps, if o == [] then NULL else o[0]) && i <= |o| && base > NULL
    requires i > 0 ==> o[i - 1] < base
    requires i < |o| ==> base < o[i]
    requires base in ps2 && ps2[base] == Pair(size, if i < |o| then o[i] else NULL, if i > 0 then o[i - 1] else NULL)
    requires i > 0 ==> o[i - 1] in ps2 && ps2[o[i - 1]] == ps[o[i - 1]].(nextblock := base)
    requires i < |o| ==> o[i] in ps2 && ps2[o[i]] == ps[o[i]].(prevblock := base)
    requires forall j :: 0 <= j < |o| && j != i - 1 && j != i ==> o[j] in ps2 && ps2[o[j]] == ps[o[j]]
    ensures WellLinked(o[..i] + [base] + o[i..], ps2, if i == 0 then base else o[0])
    ensures RunsOf(o[..i] + [base] + o[i..], ps2) == RunsOf(o, ps)[..i] + [Run(base, size)] + RunsOf(o, ps)[i..]
  {
    var o2 := o[..i] + [base] + o[i..];
    InsertAscending(o, ps, i, base);
    forall j | 0 <= j < |o2|
      ensures NodeLinked(o2, ps2, j)
    {
      InsertLinkedAt(o, ps, i, base, size, ps2, j);
    }
    InsertedShape(o, i, base);
    assert o2[0] == if i == 0 then base else o[0];
    assert WellLinked(o2, ps2, if i == 0 then base else o[0]);
    forall j | 0 <= j < |o|
      ensures o[j] in ps && o[j] in ps2 && ps2[o[j]].size == ps[o[j]].size
    {
      LinkAt(o, ps, if o == [] then NULL else o[0], j);
    }
    InsertRuns(o, ps, i, base, size, ps2);
  }

  /** Inserting an address between its neighbours keeps the addresses increasing. */
  lemma InsertAscending(o: seq<int>, ps: map<int, Pair>, i: nat, base: int)
    requires WellLinked(o, ps, if o == [] then NULL else o[0]) && i <= |o|
    requires i > 0 ==> o[i - 1] < base
    requires i < |o| ==> base < o[i]
    ensures forall a, b :: 0 <= a < b < |o| + 1 ==> Ascending(o[..i] + [base] + o[i..], a, b)
  {
    var o2 := o[..i] + [base] + o[i..];
    InsertedShape(o, i, base);
    Increasing(o, ps, if o == [] then NULL else o[0]);
    forall a, b | 0 <= a < b < |o2|
      ensures Ascending(o2, a, b)
    {
      var ja := if a < i then a else a - 1;
      var jb := if b < i then b else b - 1;
      if a != i && b != i {
        assert o2[a] == o[ja] && o2[b] == o[jb] && ja < jb;
      } else if a == i && b > i + 1 {
        assert o2[b] == o[jb] && o[i] <= o[jb];
      } else if b == i && a < i - 1 {
        assert o2[a] == o[ja] && o[ja] <= o[i - 1];
      }
    }
  }

  /** The runs of a list with an address inserted, when no other node's length changed. */
  lemma InsertRuns(o: seq<int>, ps: map<int, Pair>, i: nat, base: int, size: int, ps2: map<int, Pair>)
    requires i <= |o| && base in ps2 && ps2[base].size == size
    requires forall j :: 0 <= j < |o| ==> o[j] in ps && o[j] in ps2 && ps2[o[j]].size == ps[o[j]].size
    ensures RunsOf(o[..i] + [base] + o[i..], ps2) == RunsOf(o, ps)[..i] + [Run(base, size)] + RunsOf(o, ps)[i..]
  {
    var o2 := o[..i] + [base] + o[i..];
    InsertedShape(o, i, base);
    var r1 := RunsOf(o2, ps2);
    var r0 := RunsOf(o, ps);
    var r2 := r0[..i] + [Run(base, size)] + r0[i..];
    assert |r1| == |r2|;
    forall j | 0 <= j < |r1|
      ensures r1[j] == r2[j]
    {
      if j < i {
        assert r2[j] == r0[j] && o2[j] == o[j];
      } else if j > i {
        assert r2[j] == r0[j - 1] && o2[j] == o[j - 1];
      }
    }
    assert r1 == r2;
  }

  /** One node of the list built by InsertLinked: its address is in memory and its links are right. */
  lemma InsertLinkedAt(o: seq<int>, ps: map<int, Pair>, i: nat, base: int, size: int, ps2: map<int, Pair>, j: nat)
    requires WellLinked(o, ps, if o == [] then NULL else o[0]) && i <= |o| && base > NULL
    requires i > 0 ==> o[i - 1] < base
    requires i < |o| ==> base < o[i]
    requires base in ps2 && ps2[base] == Pair(size, if i < |o| then o[i] else NULL, if i > 0 then o[i - 1] else NULL)
    requires i > 0 ==> o[i - 1] in ps2 && ps2[o[i - 1]] == ps[o[i - 1]].(nextblock := base)
    requires i < |o| ==> o[i] in ps2 && ps2[o[i]] == ps[o[i]].(prevblock := base)
    requires forall j :: 0 <= j < |o| && j != i - 1 && j != i ==> o[j] in ps2 && ps2[o[j]] == ps[o[j]]
    requires j < |o| + 1
    ensures NodeLinked(o[..i] + [base] + o[i..], ps2, j)
  {
    var o2 := o[..i] + [base] + o[i..];
    InsertedShape(o, i, base);
    var h := if o == [] then NULL else o[0];
    if j < i - 1 {
      LinkAt(o, ps, h, j);
      assert o2[j] == o[j] && o2[j + 1] == o[j + 1] && ps2[o[j]] == ps[o[j]];
      assert j > 0 ==> o2[j - 1] == o[j - 1];
    } else if j == i - 1 {
      LinkAt(o, ps, h, j);
      assert o2[j] == o[i - 1] && o2[j + 1] == base;
      assert j > 0 ==> o2[j - 1] == o[j - 1];
    } else if j == i {
      assert o2[j] == base;
      assert j + 1 < |o2| ==> o2[j + 1] == o[i];
      assert j > 0 ==> o2[j - 1] == o[i - 1];
    } else if j == i + 1 {
      LinkAt(o, ps, h, i);
      assert o2[j] == o[i] && o2[j - 1] == base;
      assert j + 1 < |o2| ==> o2[j + 1] == o[i + 1];
    } else if j > i + 1 {
      LinkAt(o, ps, h, j - 1);
      assert o2[j] == o[j - 1] && o2[j - 1] == o[j - 2] && ps2[o[j - 1]] == ps[o[j - 1]];
      assert j + 1 < |o2| ==> o2[j + 1] == o[j];
    }
  }

  /** Where each address of `o[..i] + [base] + o[i..]` comes from. */
  lemma InsertedShape(o: seq<int>, i: nat, base: int)
    requires i <= |o|
    ensures |o[..i] + [base] + o[i..]| == |o| + 1
    ensures forall j :: 0 <= j < |o| + 1 ==>
      (o[..i] + [base] + o[i..])[j] == if j < i then o[j] else if j == i then base else o[j - 1]
  {
  }

  /**
   * Unlinking the node at position `k` of a well-linked list: its two
   * neighbours are linked to each other (NULL at an end) and nothing else
   * changes. The result is well linked and describes the old runs without
   * run `k`.
   */
  lemma RemoveLinked(o: seq<int>, ps: map<int, Pair>, k: nat, ps2: map<int, Pair>)
    requires WellLinked(o, ps, if o == [] then NULL else o[0]) && k < |o|
    requires k > 0 ==>
      o[k - 1] in ps2 && ps2[o[k - 1]] == ps[o[k - 1]].(nextblock := if k + 1 < |o| then o[k + 1] else NULL)
    requires k + 1 < |o| ==>
      o[k + 1] in ps2 && ps2[o[k + 1]] == ps[o[k + 1]].(prevblock := if k > 0 then o[k - 1] else NULL)
    requires forall j :: 0 <= j < |o| && j != k - 1 && j != k && j != k + 1 ==> o[j] in ps2 && ps2[o[j]] == ps[o[j]]
    ensures WellLinked(o[..k] + o[k + 1..], ps2, if |o| == 1 then NULL else if k == 0 then o[1] else o[0])
    ensures RunsOf(o[..k] + o[k + 1..], ps2) == RemoveAt(RunsOf(o, ps), k)
  {
    var o2 := o[..k] + o[k + 1..];
    assert |o2| == |o| - 1;
    assert forall j :: 0 <= j < |o2| ==> o2[j] == if j < k then o[j] else o[j + 1];
    Increasing(o, ps, if o == [] then NULL else o[0]);
    forall a, b | 0 <= a < b < |o2|
      ensures Ascending(o2, a, b)
    {
      var ja := if a < k then a else a + 1;
      var jb := if b < k then b else b + 1;
      assert o2[a] == o[ja] && o2[b] == o[jb] && ja < jb;
    }
    forall j | 0 <= j < |o2|
      ensures NodeLinked(o2, ps2, j)
    {
      RemoveLinkedAt(o, ps, k, ps2, j);
    }
    assert o2 != [] ==> o2[0] == if k == 0 then o[1] else o[0];
    var h := if |o| == 1 then NULL else if k == 0 then o[1] else o[0];
    assert h == if o2 == [] then NULL else o2[0];
    assert WellLinked(o2, ps2, h);
    var r1 := RunsOf(o2, ps2);
    var r2 := RemoveAt(RunsOf(o, ps), k);
    assert |r1| == |r2|;
    forall j | 0 <= j < |r1|
      ensures r1[j] == r2[j]
    {
      if j < k {
        assert o2[j] == o[j];
      } else {
        assert o2[j] == o[j + 1];
      }
    }
  }

  /** One node of the list left by RemoveLinked: its address is in memory and its links are right. */
  lemma RemoveLinkedAt(o: seq<int>, ps: map<int, Pair>, k: nat, ps2: map<int, Pair>, j: nat)
    requires WellLinked(o, ps, if o == [] then NULL else o[0]) && k < |o|
    requires k > 0 ==>
      o[k - 1] in ps2 && ps2[o[k - 1]] == ps[o[k - 1]].(nextblock := if k + 1 < |o| then o[k + 1] else NULL)
    requires k + 1 < |o| ==>
      o[k + 1] in ps2 && ps2[o[k + 1]] == ps[o[k + 1]].(prevblock := if k > 0 then o[k - 1] else NULL)
    requires forall j :: 0 <= j < |o| && j != k - 1 && j != k && j != k + 1 ==> o[j] in ps2 && ps2[o[j]] == ps[o[j]]
    requires j < |o| - 1
    ensures NodeLinked(o[..k] + o[k + 1..], ps2, j)
  {
    var o2 := o[..k] + o[k + 1..];
    assert |o2| == |o| - 1;
    assert forall m :: 0 <= m < |o2| ==> o2[m] == if m < k then o[m] else o[m + 1];
    var h := if o == [] then NULL else o[0];
    if j < k - 1 {
      LinkAt(o, ps, h, j);
      assert o2[j] == o[j] && o2[j + 1] == o[j + 1] && ps2[o[j]] == ps[o[j]];
      assert j > 0 ==> o2[j - 1] == o[j - 1];
    } else if j == k - 1 {
      LinkAt(o, ps, h, j);
      assert o2[j] == o[k - 1];
      assert j > 0 ==> o2[j - 1] == o[j - 1];
      assert j + 1 < |o2| ==> o2[j + 1] == o[k + 1];
    } else if j == k {
      LinkAt(o, ps, h, k + 1);
      assert o2[j] == o[k + 1];
      assert j + 1 < |o2| ==> o2[j + 1] == o[k + 2];
      assert j > 0 ==> o2[j - 1] == o[k - 1];
    } else {
      LinkAt(o, ps, h, j + 1);
      assert o2[j] == o[j + 1] && ps2[o[j + 1]] == ps[o[j + 1]];
      assert j + 1 < |o2| ==> o2[j + 1] == o[j + 2];
      assert o2[j - 1] == o[j];
    }
  }

  /**
   * add_pair's scan stops at position `i`, the last pair below the new base
   * (its successor is NULL or above the base): the new run belongs right
   * after it, at position `i + 1` of the sorted list.
   */
  lemma SpliceAfter(o: seq<int>, ps: map<int, Pair>, i: nat, r: Run)
    requires WellLinked(o, ps, if o == [] then NULL else o[0])
    requires i < |o| && o[i] < r.base && r.base != o[0]
    requires forall j :: 1 <= j < |o| ==> o[j] != r.base
    requires ps[o[i]].nextblock == NULL || ps[o[i]].nextblock >= r.base
    ensures InsertIndex(RunsOf(o, ps), r.base) == i + 1
    ensures AddPairSpec(RunsOf(o, ps), r) == RunsOf(o, ps)[..i + 1] + [r] + RunsOf(o, ps)[i + 1..]
  {
    var runs := RunsOf(o, ps);
    LinkAt(o, ps, if o == [] then NULL else o[0], i);
    Increasing(o, ps, if o == [] then NULL else o[0]);
    InsertIndexBelow(runs, r.base);
    assert forall j :: 0 <= j <= i ==> runs[j].base < r.base by {
      assert forall j :: 0 <= j <= i ==> o[j] <= o[i];
    }
    assert i + 1 < |o| ==> r.base < runs[i + 1].base;
  }

  /** In a well-linked list, the nodes other than `i` and `i + 1` are at addresses different from theirs and from a new base above node `i`. */
  lemma OtherNodes(o: seq<int>, ps: map<int, Pair>, i: nat, base: int)
    requires WellLinked(o, ps, if o == [] then NULL else o[0])
    requires i < |o| && o[i] < base && forall j :: 1 <= j < |o| ==> o[j] != base
    ensures forall j :: 0 <= j < |o| && j != i && j != i + 1 ==>
      o[j] != o[i] && (i + 1 < |o| ==> o[j] != o[i + 1]) && o[j] != base
  {
    Increasing(o, ps, if o == [] then NULL else o[0]);
    assert o[0] <= o[i];
  }

  /** A run below the head, linked in front of it, becomes the new head, as AddPairSpec describes. */
  lemma PrependLinked(o: seq<int>, ps: map<int, Pair>, r: Run, m: map<int, Pair>) returns (o2: seq<int>)
    requires WellLinked(o, ps, if o == [] then NULL else o[0])
    requires o != [] && NULL < r.base < o[0]
    requires m == ps[o[0] := ps[o[0]].(prevblock := r.base)][r.base := Pair(r.size, o[0], NULL)]
    ensures WellLinked(o2, m, r.base)
    ensures RunsOf(o2, m) == AddPairSpec(RunsOf(o, ps), r)
  {
    o2 := [r.base] + o;
    var runs := RunsOf(o, ps);
    Increasing(o, ps, if o == [] then NULL else o[0]);
    assert forall j :: 0 <= j < |o| ==> o[0] <= o[j];
    assert forall j :: 1 <= j < |o| ==> o[j] != o[0] && o[j] != r.base;
    InsertLinked(o, ps, 0, r.base, r.size, m);
    assert [r.base] + o == o[..0] + [r.base] + o[0..];
    assert InsertIndex(runs, r.base) == 0;
    assert AddPairSpec(runs, r) == runs[..0] + [r] + runs[0..];
  }

  /** A run whose base equals the head's base becomes the only run, as AddPairSpec describes. */
  lemma SoleLinked(o: seq<int>, ps: map<int, Pair>, r: Run, m: map<int, Pair>)
    requires WellLinked(o, ps, if o == [] then NULL else o[0])
    requires o != [] && r.base == o[0]
    requires m == ps[r.base := Pair(r.size, NULL, NULL)]
    ensures WellLinked([r.base], m, r.base)
    ensures RunsOf([r.base], m) == AddPairSpec(RunsOf(o, ps), r)
  {
    assert RunsOf([r.base], m) == [r];
  }

  /** Splicing the new run in after the pair where add_pair's scan stopped gives the list AddPairSpec describes. */
  lemma SpliceLinked(o: seq<int>, ps: map<int, Pair>, i: nat, r: Run, m: map<int, Pair>) returns (o2: seq<int>)
    requires WellLinked(o, ps, if o == [] then NULL else o[0])
    requires i < |o| && o[i] < r.base && r.base != o[0]
    requires forall j :: 1 <= j < |o| ==> o[j] != r.base
    requires ps[o[i]].nextblock == NULL || ps[o[i]].nextblock >= r.base
    requires r.base in m && m[r.base] == Pair(r.size, if i + 1 < |o| then o[i + 1] else NULL, o[i])
    requires o[i] in m && m[o[i]] == ps[o[i]].(nextblock := r.base)
    requires i + 1 < |o| ==> o[i + 1] in m && m[o[i + 1]] == ps[o[i + 1]].(prevblock := r.base)
    requires forall j :: 0 <= j < |o| && j != i && j != i + 1 ==> o[j] in m && m[o[j]] == ps[o[j]]
    ensures WellLinked(o2, m, o[0])
    ensures RunsOf(o2, m) == AddPairSpec(RunsOf(o, ps), r)
  {
    o2 := o[..i + 1] + [r.base] + o[i + 1..];
    SpliceAfter(o, ps, i, r);
    InsertLinked(o, ps, i + 1, r.base, r.size, m);
  }

  /** Every run lies in the body of the page `home` assigns to its base. */
  ghost predicate RunsHomed(runs: seq<Run>, home: map<int, nat>, pages: seq<PageDesc>)
  {
    forall i :: 0 <= i < |runs| ==>
      runs[i].base in home && home[runs[i].base] < |pages| && InBody(runs[i], pages[home[runs[i].base]])
  }

  /**
   * check_requested_size: 0 for a request that cannot fit in one page next to
   * the pointer-sized header; for any other request the source ends without a
   * return statement, which is modelled as None.
   */
  function CheckRequestedSize(size: nat): (r: Option<int>)
    ensures r == Some(0) <==> size + PTR_SIZE > PAGESIZE
    ensures r.None? <==> size + PTR_SIZE <= PAGESIZE
  {
    if size + PTR_SIZE > PAGESIZE then Some(0) else None
  }

  /** The run of a page acquired apart from every held page lies strictly apart from every held run. */
  lemma PageRunApart(runs: seq<Run>, home: map<int, nat>, pages: seq<PageDesc>, p: PageDesc)
    requires RunsHomed(runs, home, pages) && Acquirable(p, pages)
    ensures forall j :: 0 <= j < |runs| ==>
      runs[j].base + runs[j].size < PageRun(p).base || PageRun(p).base + PageRun(p).size < runs[j].base
  {
    forall j | 0 <= j < |runs|
      ensures runs[j].base + runs[j].size < PageRun(p).base || PageRun(p).base + PageRun(p).size < runs[j].base
    {
      assert runs[j] in runs;
      assert Apart(pages[home[runs[j].base]], p);
    }
  }

  /** Linking in the run of a newly acquired page keeps every run inside its page. */
  lemma HomedAfterNewPage(runs: seq<Run>, home: map<int, nat>, pages: seq<PageDesc>, p: PageDesc)
    requires Separated(runs) && RunsHomed(runs, home, pages) && Acquirable(p, pages)
    ensures RunsHomed(InsertSorted(runs, PageRun(p)), home[PageRun(p).base := |pages|], pages + [p])
  {
    var r := PageRun(p);
    var s := InsertSorted(runs, r);
    var i := InsertIndex(runs, r.base);
    var home2 := home[r.base := |pages|];
    InsertSortedShape(runs, r);
    forall a | 0 <= a < |s|
      ensures s[a].base in home2 && home2[s[a].base] < |pages| + 1 && InBody(s[a], (pages + [p])[home2[s[a].base]])
    {
      if a != i {
        HomedOldRun(runs, home, pages, p, if a < i then a else a - 1);
      }
    }
  }

  /** A run already held keeps its page after a new page is acquired, and its base is not the new page's run base. */
  lemma HomedOldRun(runs: seq<Run>, home: map<int, nat>, pages: seq<PageDesc>, p: PageDesc, j: nat)
    requires Separated(runs) && RunsHomed(runs, home, pages) && Acquirable(p, pages) && j < |runs|
    ensures runs[j].base != PageRun(p).base && runs[j].base in home && home[runs[j].base] < |pages|
    ensures InBody(runs[j], (pages + [p])[home[runs[j].base]])
  {
    assert runs[j].size >= 0;
    var h := home[runs[j].base];
    assert Apart(pages[h], p);
    assert (pages + [p])[h] == pages[h];
  }

  /** Replacing run `k` by its remainder, which stays in the same page, keeps every run inside its page. */
  lemma HomedAfterSplit(runs: seq<Run>, home: map<int, nat>, pages: seq<PageDesc>, k: nat, s: int)
    requires Separated(runs) && RunsHomed(runs, home, pages)
    requires k < |runs| && 0 <= s <= runs[k].size
    ensures RunsHomed(Split(runs, k, s),
                      home[runs[k].base + s := home[runs[k].base]], pages)
  {
    var t := Split(runs, k, s);
    var home2 := home[runs[k].base + s := home[runs[k].base]];
    SeparatedPairs(runs);
    forall a | 0 <= a < |t|
      ensures t[a].base in home2 && home2[t[a].base] < |pages| && InBody(t[a], pages[home2[t[a].base]])
    {
      if a < k {
        assert runs[a].base + runs[a].size < runs[k].base;
      } else if a > k {
        assert runs[k].base + runs[k].size < runs[a].base;
      }
    }
  }

  /**
   * The list half of the engine invariant: a well-linked list of separated
   * runs, each inside an acquired page.
   */
  ghost predicate ListOk(order: seq<int>, pairs: map<int, Pair>, head: int, home: map<int, nat>, pages: seq<PageDesc>)
  {
    WellLinked(order, pairs, head) && Separated(RunsOf(order, pairs)) && RunsHomed(RunsOf(order, pairs), home, pages)
  }

  /**
   * The page half of the engine invariant: acquired pages do not overlap and
   * each holds its back-pointer; `g_rmap` is the last page, and is None
   * exactly when no page was acquired, in which case the list is empty, and
   * otherwise the list is not empty.
   */
  ghost predicate BookOk(pages: seq<PageDesc>, backPtr: map<int, int>, rmap: Option<PageDesc>, empty: bool)
  {
    PagesApart(pages) &&
    (forall i :: 0 <= i < |pages| ==>
      pages[i].ptr > NULL && pages[i].ptr in backPtr && backPtr[pages[i].ptr] == pages[i].id) &&
    (rmap == None <==> pages == []) &&
    (rmap == None ==> empty) &&
    (rmap != None ==> rmap.value == pages[|pages| - 1] && !empty)
  }

  /** The run of a newly acquired page starts at no held run's base. */
  lemma GrowFresh(o: seq<int>, ps: map<int, Pair>, h: int, home: map<int, nat>, pages: seq<PageDesc>, p: PageDesc)
    requires ListOk(o, ps, h, home, pages) && Acquirable(p, pages)
    ensures PageRun(p).base > NULL
    ensures forall j :: 0 <= j < |o| ==> o[j] != PageRun(p).base
  {
    var runs := RunsOf(o, ps);
    PageRunApart(runs, home, pages, p);
    forall j | 0 <= j < |o|
      ensures o[j] != PageRun(p).base
    {
      assert runs[j].base == o[j] && runs[j].size >= 0;
    }
  }

  /**
   * After new_page and the add_pair of the page's body, the list describes
   * the old runs with the page's run inserted in address order, and its half
   * of the invariant holds with that run homed in the new page.
   */
  lemma GrowEnd(o: seq<int>, ps: map<int, Pair>, h: int, home: map<int, nat>, pages: seq<PageDesc>, p: PageDesc,
                o1: seq<int>, ps1: map<int, Pair>, h1: int)
    requires ListOk(o, ps, h, home, pages) && o != [] && Acquirable(p, pages)
    requires WellLinked(o1, ps1, h1) && RunsOf(o1, ps1) == AddPairSpec(RunsOf(o, ps), PageRun(p))
    ensures RunsOf(o1, ps1) == InsertSorted(RunsOf(o, ps), PageRun(p)) && o1 != []
    ensures ListOk(o1, ps1, h1, home[PageRun(p).base := |pages|], pages + [p])
  {
    var runs := RunsOf(o, ps);
    GrowFresh(o, ps, h, home, pages, p);
    assert runs[0].base == o[0];
    PageRunApart(runs, home, pages, p);
    HomedAfterNewPage(runs, home, pages, p);
    InsertSeparated(runs, PageRun(p));
  }

  /** The body of the first page, as the only run of the list, satisfies the list half of the invariant. */
  lemma FirstRun(ps: map<int, Pair>, home: map<int, nat>, p: PageDesc)
    requires p.ptr > NULL
    ensures var r := PageRun(p);
      var ps1 := ps[r.base := Pair(r.size, NULL, NULL)];
      RunsOf([r.base], ps1) == [r] && ListOk([r.base], ps1, r.base, home[r.base := 0], [p])
  {
    var r := PageRun(p);
    var ps1 := ps[r.base := Pair(r.size, NULL, NULL)];
    assert NodeLinked([r.base], ps1, 0);
    assert RunsOf([r.base], ps1) == [r];
  }

  /** Acquiring a page apart from the held ones, and storing its back-pointer, keeps the page book sound. */
  lemma BookGrow(pages: seq<PageDesc>, backPtr: map<int, int>, rmap: Option<PageDesc>, empty: bool, p: PageDesc)
    requires BookOk(pages, backPtr, rmap, empty) && Acquirable(p, pages)
    ensures BookOk(pages + [p], backPtr[p.ptr := p.id], Some(p), false)
  {
    var pg := pages + [p];
    forall i, j | 0 <= i < j < |pg|
      ensures Apart(pg[i], pg[j])
    {
      if j < |pages| {
        assert Apart(pages[i], pages[j]);
      }
    }
    forall i | 0 <= i < |pages|
      ensures pages[i].ptr != p.ptr
    {
      assert Apart(pages[i], p);
    }
  }

  /** Before find_space serves run `k`: its remainder's base is no other run's base. */
  lemma ServeFresh(o: seq<int>, ps: map<int, Pair>, h: int, k: nat, size: int)
    requires WellLinked(o, ps, h) && Separated(RunsOf(o, ps))
    requires k < |o| && 0 < size <= ps[o[k]].size
    ensures o[k] + size > NULL
    ensures forall j :: 0 <= j < |o| ==> o[j] != o[k] + size
  {
    var runs := RunsOf(o, ps);
    LinkAt(o, ps, h, k);
    ServeSteps(runs, k, size);
    forall j | 0 <= j < |o|
      ensures o[j] != o[k] + size
    {
      assert runs[j].base == o[j];
    }
  }

  /** After the remainder of run `k` is added, run `k` is still at position `k`. */
  lemma ServeMid(o: seq<int>, ps: map<int, Pair>, h: int, k: nat, size: int, r: Run, o1: seq<int>, ps1: map<int, Pair>, h1: int)
    requires WellLinked(o, ps, h) && Separated(RunsOf(o, ps))
    requires k < |o| && 0 < size <= ps[o[k]].size && r == Run(o[k] + size, ps[o[k]].size - size)
    requires WellLinked(o1, ps1, h1) && o != []
    requires RunsOf(o1, ps1) == AddPairSpec(RunsOf(o, ps), r)
    ensures k < |o1| && o1[k] == o[k]
  {
    var runs := RunsOf(o, ps);
    assert r == Remainder(runs[k], size);
    ServeSteps(runs, k, size);
    assert RunsOf(o1, ps1)[k] == runs[k];
  }

  /**
   * After find_space's add_pair and delete_pair, the list describes the old
   * runs with run `k` split, and its half of the invariant holds with the
   * remainder homed in run `k`'s page.
   */
  lemma ServeEnd(o: seq<int>, ps: map<int, Pair>, h: int, home: map<int, nat>, pages: seq<PageDesc>,
                 k: nat, size: int, r: Run, o1: seq<int>, ps1: map<int, Pair>, o2: seq<int>, ps2: map<int, Pair>, h2: int)
    requires ListOk(o, ps, h, home, pages)
    requires k < |o| && 0 < size <= ps[o[k]].size && r == Run(o[k] + size, ps[o[k]].size - size)
    requires o != [] && k < |o1| && |RunsOf(o, ps)| + 1 == |o1| && forall j :: 0 <= j < |o1| ==> o1[j] in ps1
    requires RunsOf(o1, ps1) == AddPairSpec(RunsOf(o, ps), r)
    requires WellLinked(o2, ps2, h2) && RunsOf(o2, ps2) == RemoveAt(RunsOf(o1, ps1), k)
    ensures RunsOf(o2, ps2) == Split(RunsOf(o, ps), k, size) && o2 != []
    ensures ListOk(o2, ps2, h2, home[o[k] + size := home[o[k]]], pages)
  {
    var runs := RunsOf(o, ps);
    assert r == Remainder(runs[k], size);
    ServeSteps(runs, k, size);
    SplitSeparated(runs, k, size);
    HomedAfterSplit(runs, home, pages, k, size);
  }

  class Engine {
    /** `g_rmap`: the descriptor of the page acquired last; None before the first allocation. */
    var rmap: Option<PageDesc>
    /** Address of the first pair of the free list, NULL when it is empty (the source keeps it in `g_rmap->ptr`). */
    var head: int
    /** The `pair_t` records in memory, by the address they are stored at. */
    var pairs: map<int, Pair>
    /** The first word of every acquired page: the id of the page's own descriptor. */
    var backPtr: map<int, int>
    /** The addresses of the pairs, in list order. */
    ghost var order: seq<int>
    /** The pages acquired from the provider, oldest first. */
    ghost var pages: seq<PageDesc>
    /** For every run base, the index in `pages` of the page holding the run. */
    ghost var home: map<int, nat>

    ghost predicate Linked()
      reads this
    {
      WellLinked(order, pairs, head)
    }

    /** The free runs, in list order. */
    ghost function Runs(): seq<Run>
      reads this
      requires Linked()
    {
      RunsOf(order, pairs)
    }

    /**
     * The engine invariant: the list is sound (`ListOk`) and the page book
     * is sound (`BookOk`).
     */
    ghost predicate Valid()
      reads this
    {
      ListOk(order, pairs, head, home, pages) && BookOk(pages, backPtr, rmap, order == [])
    }

    /** The state before the first allocation: `g_rmap` NULL, no page, no run. */
    constructor ()
      ensures Valid() && rmap == None && pages == [] && Runs() == []
    {
      rmap := None;
      head := NULL;
      pairs := map[];
      backPtr := map[];
      order := [];
      pages := [];
      home := map[];
    }

    /**
     * kma_malloc: a request too large for one page next to the pointer-sized
     * header (exactly those check_requested_size answers 0 for) gets NULL
     * and changes nothing. Otherwise, on the first call, a
     * page is acquired, its first word made a back-pointer to its descriptor
     * and its body the one free run; the request is then served by first fit.
     */
    method KmaMalloc(size: nat, p: PageDesc) returns (ret: int)
      requires Valid() && Acquirable(p, pages)
      modifies this
      ensures Valid()
      ensures CheckRequestedSize(size) == Some(0) ==>
        ret == NULL && rmap == old(rmap) && head == old(head) && pairs == old(pairs) &&
        backPtr == old(backPtr) && order == old(order) && pages == old(pages) && home == old(home)
      ensures CheckRequestedSize(size).None? ==>
        var before := if old(rmap) == None then [PageRun(p)] else old(Runs());
        var pre := WithRoomFor(before, size, PageRun(p));
        FirstFit(pre, size).Some? && ret > NULL &&
        ret == pre[FirstFit(pre, size).value].base &&
        Runs() == Split(pre, FirstFit(pre, size).value, size)
      ensures CheckRequestedSize(size).None? ==>
        pages == old(pages) + (if old(rmap) == None || FirstFit(old(Runs()), size).None? then [p] else [])
      ensures CheckRequestedSize(size).None? && old(rmap) == None ==>
        rmap == Some(p) && backPtr[p.ptr] == p.id
      ensures CheckRequestedSize(size).None? ==> Outside(Runs(), Run(ret, size))
    {
      if size + PTR_SIZE > PAGESIZE {
        return NULL;
      }
      if rmap == None {
        ghost var ps, h0 := pairs, home;
        BookGrow(pages, backPtr, rmap, true, p);
        NewPage(p);
        // The page's body becomes the one free run: new_page never writes
        // this pair, find_space reads it.
        var r := PageRun(p);
        pairs := pairs[r.base := Pair(r.size, NULL, NULL)];
        head := r.base;
        order := [r.base];
        home := home[r.base := 0];
        FirstRun(ps, h0, p);
      }
      ret := FindSpace(size, p);
    }

    /** new_page: take a page from the provider, make it `g_rmap` and store the back-pointer in its first word. */
    method NewPage(p: PageDesc)
      modifies this
      ensures rmap == Some(p) && pages == old(pages) + [p]
      ensures backPtr == old(backPtr)[p.ptr := p.id]
      ensures head == old(head) && pairs == old(pairs) && order == old(order) && home == old(home)
    {
      rmap := Some(p);
      backPtr := backPtr[p.ptr := p.id];
      pages := pages + [p];
    }

    /**
     * find_space: first fit over the list. The chosen run's low `size` bytes
     * are returned; its remainder is added (add_pair) and the run itself
     * unlinked (delete_pair), so the remainder takes its place. When no run
     * fits, a page is acquired and its body linked in as a run, which is then
     * the one chosen.
     */
    method FindSpace(size: nat, p: PageDesc) returns (ret: int)
      requires Valid() && order != []
      requires size + PTR_SIZE <= PAGESIZE
      requires FirstFit(Runs(), size).None? ==> Acquirable(p, pages)
      modifies this
      ensures Valid()
      ensures var pre := WithRoomFor(old(Runs()), size, PageRun(p));
        FirstFit(pre, size).Some? && ret > NULL &&
        ret == pre[FirstFit(pre, size).value].base &&
        Runs() == Split(pre, FirstFit(pre, size).value, size)
      ensures pages == old(pages) + (if FirstFit(old(Runs()), size).None? then [p] else [])
      ensures FirstFit(old(Runs()), size).Some? ==> rmap == old(rmap) && backPtr == old(backPtr)
      ensures Outside(Runs(), Run(ret, size))
    {
      ghost var start := Runs();
      var npair, k := ScanFit(size);
      if pairs[npair].size < size {
        // The scan reached the tail and no run fits: a fresh page's body is
        // linked in as a run, and the scan moves on to it.
        assert FirstFit(start, size).None?;
        var r := PageRun(p);
        GrowByPage(p);
        FreshRunChosen(start, size, r);
        k := InsertIndex(start, r.base);
        npair := r.base;
      }
      ghost var pre := Runs();
      FirstFitAt(pre, size, k);
      ret := npair;
      if size > 0 {
        ServeFrom(npair, size, k);
      } else {
        assert Split(pre, k, size) == pre;
      }
      BlockApart(pre, k, size);
    }

    /**
     * The scan of find_space: from the head, follow `nextblock` past every
     * run shorter than `size`. It stops at the first run that fits or, when
     * none does, at the tail.
     */
    method ScanFit(size: int) returns (npair: int, ghost k: nat)
      requires Linked() && order != []
      ensures k < |order| && npair == order[k]
      ensures forall j :: 0 <= j < k ==> Runs()[j].size < size
      ensures Runs()[k].size >= size || k == |order| - 1
    {
      npair := head;
      k := 0;
      LinkAt(order, pairs, head, 0);
      while pairs[npair].size < size && pairs[npair].nextblock != NULL
        invariant k < |order| && npair == order[k]
        invariant forall j :: 0 <= j < k ==> Runs()[j].size < size
        decreases |order| - k
      {
        LinkAt(order, pairs, head, k);
        npair := pairs[npair].nextblock;
        k := k + 1;
      }
      LinkAt(order, pairs, head, k);
    }

    /**
     * The exhaustion branch of find_space: a page is acquired (new_page) and
     * its body linked into the list as one free run (add_pair).
     */
    method GrowByPage(p: PageDesc)
      requires Valid() && order != [] && Acquirable(p, pages)
      modifies this
      ensures Valid() && order != []
      ensures Runs() == InsertSorted(old(Runs()), PageRun(p))
      ensures pages == old(pages) + [p] && rmap == Some(p)
      ensures backPtr == old(backPtr)[p.ptr := p.id]
    {
      var r := PageRun(p);
      ghost var o, ps, h0, pg := order, pairs, home, pages;
      GrowFresh(o, ps, head, h0, pg, p);
      BookGrow(pg, backPtr, rmap, false, p);
      NewPage(p);
      AddPair(r.base, r.size);
      home := h0[r.base := |pg|];
      GrowEnd(o, ps, o[0], h0, pg, p, order, pairs, head);
    }

    /**
     * The tail of find_space for a non-empty request: the remainder of run
     * `k` (at `npair`) is added and the run itself deleted, so the remainder
     * takes the run's place in the list.
     */
    method ServeFrom(npair: int, size: nat, ghost k: nat)
      requires Valid() && k < |order| && order[k] == npair
      requires 0 < size <= Runs()[k].size
      modifies this
      ensures Valid() && order != []
      ensures Runs() == Split(old(Runs()), k, size)
      ensures pages == old(pages) && rmap == old(rmap) && backPtr == old(backPtr)
    {
      ghost var o, ps, h0 := order, pairs, home;
      var len := pairs[npair].size;
      ServeFresh(o, ps, head, k, size);
      AddPair(npair + size, len - size);
      ghost var o1, ps1 := order, pairs;
      ghost var r := Run(npair + size, len - size);
      ServeMid(o, ps, o[0], k, size, r, o1, ps1, head);
      DeletePair(npair, k);
      // The remainder lies in the chosen run's page (`npair` is `o[k]`).
      home := h0[o[k] + size := h0[o[k]]];
      ServeEnd(o, ps, o[0], h0, pages, k, size, r, o1, ps1, order, pairs, head);
    }

    /**
     * add_pair: store a pair of the given length at `base` and link it in. A
     * base below the head becomes the new head; a base equal to the head
     * makes that pair the only one; any other base is spliced in after the
     * last pair below it, with both neighbours' links fixed.
     */
    method AddPair(base: int, size: int)
      requires Linked() && order != [] && base > NULL
      requires forall j :: 1 <= j < |order| ==> order[j] != base
      modifies this
      ensures WellLinked(order, pairs, head)
      ensures RunsOf(order, pairs) == AddPairSpec(RunsOf(old(order), old(pairs)), Run(base, size))
      ensures rmap == old(rmap) && backPtr == old(backPtr) && pages == old(pages) && home == old(home)
    {
      ghost var o, ps := order, pairs;
      ghost var r := Run(base, size);
      LinkAt(o, ps, head, 0);
      if base < head {
        var m := pairs;
        m := m[head := m[head].(prevblock := base)];
        m := m[base := Pair(size, head, NULL)];
        order := PrependLinked(o, ps, r, m);
        pairs := m;
        head := base;
      } else if base == head {
        var m := pairs;
        m := m[base := Pair(size, NULL, NULL)];
        SoleLinked(o, ps, r, m);
        pairs := m;
        order := [base];
      } else {
        var temp, i := ScanBelow(base);
        OtherNodes(o, ps, i, base);
        LinkAt(o, ps, head, i);
        if i + 1 < |o| {
          LinkAt(o, ps, head, i + 1);
        }
        var m := pairs;
        var tempn := m[temp].nextblock;
        if tempn != NULL {
          m := m[tempn := m[tempn].(prevblock := base)];
        }
        m := m[temp := m[temp].(nextblock := base)];
        m := m[base := Pair(size, tempn, temp)];
        assert i + 1 < |o| ==> m[o[i + 1]] == ps[o[i + 1]].(prevblock := base);
        assert m[o[i]] == ps[o[i]].(nextblock := base);
        order := SpliceLinked(o, ps, i, r, m);
        pairs := m;
      }
    }

    /**
     * The scan of add_pair: from the head, follow `nextblock` while the next
     * pair exists and lies below `base`. It stops at a pair below `base` whose
     * successor is NULL or not below `base`.
     */
    method ScanBelow(base: int) returns (temp: int, ghost i: nat)
      requires Linked() && order != [] && head < base
      ensures i < |order| && temp == order[i] && order[i] < base
      ensures pairs[temp].nextblock == NULL || pairs[temp].nextblock >= base
    {
      temp := head;
      i := 0;
      while pairs[temp].nextblock != NULL && pairs[temp].nextblock < base
        invariant i < |order| && temp == order[i] && order[i] < base
        decreases |order| - i
      {
        LinkAt(order, pairs, head, i);
        temp := pairs[temp].nextblock;
        i := i + 1;
      }
    }

    /**
     * delete_pair: unlink the pair at `base`. The only pair leaves an empty
     * list; the tail's predecessor becomes the tail; the head's successor
     * becomes the head; an interior pair's neighbours are linked to each other.
     */
    method DeletePair(base: int, ghost k: nat)
      requires Linked() && k < |order| && order[k] == base
      modifies this
      ensures WellLinked(order, pairs, head)
      ensures RunsOf(order, pairs) == RemoveAt(RunsOf(old(order), old(pairs)), k)
      ensures rmap == old(rmap) && backPtr == old(backPtr) && pages == old(pages) && home == old(home)
    {
      ghost var o, ps := order, pairs;
      var prev := pairs[base].prevblock;
      var next := pairs[base].nextblock;
      Increasing(o, ps, head);
      LinkAt(o, ps, head, k);
      if k > 0 {
        LinkAt(o, ps, head, k - 1);
      }
      if k + 1 < |o| {
        LinkAt(o, ps, head, k + 1);
      }
      if prev == NULL && next == NULL {
        head := NULL;
      } else if next == NULL {
        pairs := pairs[prev := pairs[prev].(nextblock := NULL)];
      } else if prev == NULL {
        pairs := pairs[next := pairs[next].(prevblock := NULL)];
        head := next;
      } else {
        pairs := pairs[prev := pairs[prev].(nextblock := next)];
        pairs := pairs[next := pairs[next].(prevblock := prev)];
      }
      RemoveLinked(o, ps, k, pairs);
      order := order[..k] + order[k + 1..];
    }
  }
}
