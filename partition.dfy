/**
 * The chunk-size partitioning rule of a table, stated on the sequence of its
 * chunk sizes (row counts). A table with chunk size k > 0 keeps every chunk
 * but the last exactly full and the last at most full; with k == 0 it keeps a
 * single unbounded chunk. Table.append (table.cpp) moves from one size
 * sequence to the next by AppendRow, and Table.row_count (table.cpp) reads
 * the total off RowCountFormula, which is only the true total under
 * Partitioned.
 */
module Partition {

  /** Total number of rows held by chunks of these sizes. */
  function Sum(sizes: seq<nat>): nat {
    if sizes == [] then 0 else Sum(sizes[..|sizes| - 1]) + sizes[|sizes| - 1]
  }

  function Last(sizes: seq<nat>): nat
    requires |sizes| >= 1
  {
    sizes[|sizes| - 1]
  }

  /** The invariant table.cpp:60 relies on. */
  predicate Partitioned(sizes: seq<nat>, k: nat)
    ensures Partitioned(sizes, k) && k > 0 ==> forall i :: 0 <= i < |sizes| ==> sizes[i] <= k
  {
    && |sizes| >= 1
    && (k == 0 ==> |sizes| == 1)
    && (k > 0 ==> (forall i :: 0 <= i < |sizes| - 1 ==> sizes[i] == k) && Last(sizes) <= k)
  }

  /** Only a sole chunk may be empty: a chunk is started for a row and at once receives it. */
  predicate Compact(sizes: seq<nat>)
    ensures Compact(sizes) && |sizes| > 1 ==> Sum(sizes) > 0
  {
    |sizes| >= 1 && (|sizes| == 1 || Last(sizes) > 0)
  }

  /** What row_count computes: all chunks but the last counted as full. */
  function RowCountFormula(sizes: seq<nat>, k: nat): (n: nat)
    requires |sizes| >= 1
    ensures |sizes| == 1 ==> n == sizes[0]
    ensures n >= Last(sizes)
  {
    (|sizes| - 1) * k + Last(sizes)
  }

  /** The test at the head of Table::append. */
  predicate NeedsNewChunk(sizes: seq<nat>, k: nat)
    requires |sizes| >= 1
    ensures Partitioned(sizes, k) ==> (NeedsNewChunk(sizes, k) <==> k > 0 && Last(sizes) + 1 > k)
  {
    k != 0 && Last(sizes) == k
  }

  /** The chunk sizes after appending one row: into a new chunk when the last
      one is full and the capacity is bounded, into the last chunk otherwise. */
  function AppendRow(sizes: seq<nat>, k: nat): (r: seq<nat>)
    requires |sizes| >= 1
    ensures |sizes| <= |r| <= |sizes| + 1
  {
    if NeedsNewChunk(sizes, k) then sizes + [1]
    else sizes[..|sizes| - 1] + [Last(sizes) + 1]
  }

  /** The sizes after n appends to a freshly constructed table (one empty chunk). */
  function AfterAppends(n: nat, k: nat): (r: seq<nat>)
    ensures 1 <= |r| <= n + 1
  {
    if n == 0 then [0] else AppendRow(AfterAppends(n - 1, k), k)
  }

  lemma SumSnoc(init: seq<nat>, x: nat)
    ensures Sum(init + [x]) == Sum(init) + x
  {
    assert (init + [x])[..|init|] == init;
  }

  lemma {:induction false} SumOfFull(s: seq<nat>, k: nat)
    requires forall i :: 0 <= i < |s| ==> s[i] == k
    ensures Sum(s) == |s| * k
  {
    if s != [] {
      var init := s[..|s| - 1];
      SumOfFull(init, k);
      assert Sum(s) == |init| * k + k;
    }
  }

  /** Under the partition invariant the row_count formula is the real total. */
  lemma RowCountIsSum(sizes: seq<nat>, k: nat)
    requires Partitioned(sizes, k)
    ensures RowCountFormula(sizes, k) == Sum(sizes)
  {
    var init := sizes[..|sizes| - 1];
    assert sizes == init + [Last(sizes)];
    SumSnoc(init, Last(sizes));
    if k > 0 {
      SumOfFull(init, k);
    }
  }

  /** Appending a row adds exactly one to the total and either opens exactly
      one chunk (when NeedsNewChunk) or keeps the count; earlier chunks keep
      their sizes. */
  lemma AppendRowShape(sizes: seq<nat>, k: nat)
    requires |sizes| >= 1
    ensures Sum(AppendRow(sizes, k)) == Sum(sizes) + 1
    ensures NeedsNewChunk(sizes, k) ==> |AppendRow(sizes, k)| == |sizes| + 1 && Last(AppendRow(sizes, k)) == 1
    ensures !NeedsNewChunk(sizes, k) ==> |AppendRow(sizes, k)| == |sizes| && Last(AppendRow(sizes, k)) == Last(sizes) + 1
    ensures AppendRow(sizes, k)[..|sizes| - 1] == sizes[..|sizes| - 1]
  {
    var init := sizes[..|sizes| - 1];
    assert sizes == init + [Last(sizes)];
    SumSnoc(init, Last(sizes));
    if NeedsNewChunk(sizes, k) {
      SumSnoc(sizes, 1);
    } else {
      SumSnoc(init, Last(sizes) + 1);
    }
  }

  /** With unbounded capacity no append ever opens a chunk. */
  lemma UnboundedNeverSplits(sizes: seq<nat>)
    requires |sizes| >= 1
    ensures |AppendRow(sizes, 0)| == |sizes|
    ensures Last(AppendRow(sizes, 0)) == Last(sizes) + 1
  {
  }

  lemma AppendRowPreservesPartitioned(sizes: seq<nat>, k: nat)
    requires Partitioned(sizes, k)
    ensures Partitioned(AppendRow(sizes, k), k)
  {
  }

  lemma AppendRowPreservesCompact(sizes: seq<nat>, k: nat)
    requires Compact(sizes)
    ensures Compact(AppendRow(sizes, k))
  {
  }

  /** Opening an empty chunk behind a full one keeps the partition invariant. */
  lemma OpenEmptyChunkPreservesPartitioned(sizes: seq<nat>, k: nat)
    requires Partitioned(sizes, k) && NeedsNewChunk(sizes, k)
    ensures Partitioned(sizes + [0], k)
  {
  }

  /** For bounded capacity, a partitioned compact table has ceil(rows / k)
      chunks (one chunk when empty), written without division. */
  lemma ChunkCountIsCeiling(sizes: seq<nat>, k: nat)
    requires k > 0 && Partitioned(sizes, k) && Compact(sizes)
    ensures Sum(sizes) == 0 ==> |sizes| == 1
    ensures Sum(sizes) > 0 ==> (|sizes| - 1) * k < Sum(sizes) <= |sizes| * k
  {
    RowCountIsSum(sizes, k);
    assert Sum(sizes) == (|sizes| - 1) * k + Last(sizes);
    assert |sizes| * k == (|sizes| - 1) * k + k;
  }

  /** A partitioned, compact table's chunk sizes are determined by its row
      count: two such size lists that row_count cannot tell apart are equal. */
  lemma LayoutDeterminedByRowCount(s: seq<nat>, t: seq<nat>, k: nat)
    requires Partitioned(s, k) && Compact(s) && Partitioned(t, k) && Compact(t)
    requires RowCountFormula(s, k) == RowCountFormula(t, k)
    ensures s == t
  {
    if k > 0 {
      if |s| < |t| {
        FewerChunksFewerRows(s, t, k);
      } else if |t| < |s| {
        FewerChunksFewerRows(t, s, k);
      }
      assert |s| == |t|;
      assert Last(s) == Last(t);
      assert forall i :: 0 <= i < |s| ==> s[i] == t[i];
    }
  }

  /** Any partitioned, compact table holding n rows has the layout that n
      appends to a fresh table produce. */
  lemma LayoutOfRowCount(s: seq<nat>, k: nat, n: nat)
    requires Partitioned(s, k) && Compact(s) && RowCountFormula(s, k) == n
    ensures s == AfterAppends(n, k)
  {
    AfterAppendsInvariant(n, k);
    AfterAppendsCounts(n, k);
    LayoutDeterminedByRowCount(s, AfterAppends(n, k), k);
  }

  /** The chunk count of such a table, read off AfterAppendsCounts: one chunk
      when unbounded or empty, ceil(n / k) chunks otherwise. */
  lemma ChunkCountOfRowCount(s: seq<nat>, k: nat, n: nat)
    requires Partitioned(s, k) && Compact(s) && RowCountFormula(s, k) == n
    ensures k == 0 || n == 0 ==> |s| == 1
    ensures k > 0 && n > 0 ==> (|s| - 1) * k < n <= |s| * k
  {
    LayoutOfRowCount(s, k, n);
    AfterAppendsCounts(n, k);
  }

  lemma FewerChunksFewerRows(s: seq<nat>, t: seq<nat>, k: nat)
    requires k > 0 && Partitioned(s, k) && Compact(t) && |s| < |t|
    ensures RowCountFormula(s, k) < RowCountFormula(t, k)
  {
    assert (|t| - 1) * k >= |s| * k;
    assert |s| * k == (|s| - 1) * k + k;
  }

  /** n appends to a fresh table leave a partitioned, compact table of n rows. */
  lemma AfterAppendsInvariant(n: nat, k: nat)
    ensures Partitioned(AfterAppends(n, k), k)
    ensures Compact(AfterAppends(n, k))
    ensures Sum(AfterAppends(n, k)) == n
  {
    AfterAppendsPartitioned(n, k);
    AfterAppendsSum(n, k);
  }

  lemma {:induction false} AfterAppendsPartitioned(n: nat, k: nat)
    ensures Partitioned(AfterAppends(n, k), k) && Compact(AfterAppends(n, k))
  {
    if n > 0 {
      var prev := AfterAppends(n - 1, k);
      AfterAppendsPartitioned(n - 1, k);
      AppendRowPreservesPartitioned(prev, k);
      AppendRowPreservesCompact(prev, k);
    }
  }

  lemma {:induction false} AfterAppendsSum(n: nat, k: nat)
    ensures Sum(AfterAppends(n, k)) == n
  {
    if n == 0 {
      assert Sum([0]) == Sum([]) + 0;
    } else {
      AfterAppendsSum(n - 1, k);
      AppendRowShape(AfterAppends(n - 1, k), k);
    }
  }

  /** Chunk size 0: any number of appends keeps the single chunk. */
  lemma {:induction false} UnboundedAfterAppends(n: nat)
    ensures AfterAppends(n, 0) == [n]
  {
    if n > 0 {
      UnboundedAfterAppends(n - 1);
      var prev := AfterAppends(n - 1, 0);
      assert AfterAppends(n, 0) == AppendRow(prev, 0);
      assert AppendRow(prev, 0) == prev[..0] + [Last(prev) + 1];
    }
  }

  /** After n appends to a fresh table the row count formula gives n; with
      chunk size 0, or with no row, there is one chunk; with chunk size k > 0
      every chunk but the last is full and there are ceil(n / k) chunks. */
  lemma AfterAppendsCounts(n: nat, k: nat)
    ensures RowCountFormula(AfterAppends(n, k), k) == n
    ensures k == 0 || n == 0 ==> |AfterAppends(n, k)| == 1
    ensures k > 0 ==> forall i :: 0 <= i < |AfterAppends(n, k)| - 1 ==> AfterAppends(n, k)[i] == k
    ensures k > 0 && n > 0 ==> (|AfterAppends(n, k)| - 1) * k < n <= |AfterAppends(n, k)| * k
  {
    AfterAppendsInvariant(n, k);
    if k == 0 {
      UnboundedAfterAppends(n);
    } else {
      RowCountIsSum(AfterAppends(n, k), k);
      ChunkCountIsCeiling(AfterAppends(n, k), k);
    }
  }
}
