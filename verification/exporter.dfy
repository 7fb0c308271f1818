/** Export: the loop that pages through the site's hits in ascending ID
    order, writes one row per hit under the header, and keeps the checkpoint
    (LastHitID) and the row count (NumRows) up to date. */
module Exporter {
  import opened Wrappers
  import opened Hits
  import opened Codec

  /** How many hits one page holds. */
  const BatchSize: nat := 5000

  /** The store lists hits by strictly increasing ID. */
  predicate Ascending(store: seq<Hit>)
  {
    forall i, j :: 0 <= i < j < |store| ==> store[i].id < store[j].id
  }

  /** Where the hits after `after` start: every hit before the position has an
      ID of at most `after`, the hit at it (if any) a larger one. */
  function FirstAfter(store: seq<Hit>, after: int): (k: nat)
    ensures k <= |store|
  {
    if store == [] || store[0].id > after then 0 else 1 + FirstAfter(store[1..], after)
  }

  /** FirstAfter splits the store at `after`: the hits before the position
      have IDs of at most `after`, the hit at it (if any) a larger one. */
  lemma {:induction false} FirstAfterSplits(store: seq<Hit>, after: int)
    ensures var k := FirstAfter(store, after);
      && (forall i :: 0 <= i < k ==> store[i].id <= after)
      && (k < |store| ==> store[k].id > after)
  {
    if store != [] && store[0].id <= after {
      FirstAfterSplits(store[1..], after);
      assert forall i :: 1 <= i < |store| ==> store[i] == store[1..][i - 1];
    }
  }

  /** In an ascending store the position is the one where IDs cross `after`. */
  lemma FirstAfterUnique(store: seq<Hit>, after: int, k: nat)
    requires Ascending(store) && k <= |store|
    requires forall i :: 0 <= i < k ==> store[i].id <= after
    requires k < |store| ==> store[k].id > after
    ensures FirstAfter(store, after) == k
  {
    FirstAfterSplits(store, after);
  }

  /** The hits still to export after checkpoint `after`, in store order. */
  function Pending(store: seq<Hit>, after: int): seq<Hit>
  {
    store[FirstAfter(store, after)..]
  }

  /** The pending hits are exactly the stored hits with an ID above the
      checkpoint. */
  lemma PendingExactly(store: seq<Hit>, after: int)
    requires Ascending(store)
    ensures forall h :: h in Pending(store, after) <==> h in store && h.id > after
  {
    forall h | h in store && h.id > after
      ensures h in Pending(store, after)
    {
      var i :| 0 <= i < |store| && store[i] == h;
      StoredAfterIsPending(store, after, i);
    }
    forall h | h in Pending(store, after)
      ensures h in store && h.id > after
    {
      var i :| 0 <= i < |Pending(store, after)| && Pending(store, after)[i] == h;
      PendingIsAfter(store, after, i);
    }
  }

  /** A stored hit after the checkpoint is pending. */
  lemma StoredAfterIsPending(store: seq<Hit>, after: int, i: nat)
    requires Ascending(store) && i < |store| && store[i].id > after
    ensures store[i] in Pending(store, after)
  {
    FirstAfterSplits(store, after);
    var k := FirstAfter(store, after);
    assert i >= k;
    assert Pending(store, after)[i - k] == store[i];
  }

  /** A pending hit is a stored hit after the checkpoint. */
  lemma PendingIsAfter(store: seq<Hit>, after: int, i: nat)
    requires Ascending(store) && i < |Pending(store, after)|
    ensures Pending(store, after)[i] in store && Pending(store, after)[i].id > after
  {
    FirstAfterSplits(store, after);
    var k := FirstAfter(store, after);
    assert Pending(store, after)[i] == store[k + i];
    if i > 0 {
      assert store[k].id < store[k + i].id;
    }
  }

  /** The pending hits stay in ascending order. */
  lemma PendingAscending(store: seq<Hit>, after: int)
    requires Ascending(store)
    ensures Ascending(Pending(store, after))
  {
  }

  /** Resuming from a checkpoint repeats and loses nothing: once n of the hits
      pending after x are written and the checkpoint is the last of them,
      what is pending after the checkpoint is the rest. */
  lemma ResumeFromCheckpoint(store: seq<Hit>, x: int, n: nat)
    requires Ascending(store) && n <= |Pending(store, x)|
    ensures var p := Pending(store, x);
      Pending(store, if n == 0 then x else p[n - 1].id) == p[n..]
  {
    if n > 0 {
      var k := FirstAfter(store, x) + n;
      FirstAfterUnique(store, store[k - 1].id, k);
    }
  }

  /** One page of Hits.List: the hits and the new checkpoint. */
  datatype Page = Page(hits: seq<Hit>, last: int)

  /** Hits.List(limit, after) as the store is taken to behave: the first
      `limit` hits with an ID above `after`, and the ID of the last of them,
      or `after` itself when there are none. */
  function List(store: seq<Hit>, limit: nat, after: int): (p: Page)
    ensures |p.hits| <= limit
    ensures p.last == if p.hits == [] then after else p.hits[|p.hits| - 1].id
    ensures p.hits == [] <==> limit == 0 || Pending(store, after) == []
  {
    var k := FirstAfter(store, after);
    var end := if k + limit <= |store| then k + limit else |store|;
    var hits := store[k..end];
    assert hits == Pending(store, after)[..end - k];
    Page(hits, if hits == [] then after else hits[|hits| - 1].id)
  }

  /** A page is the first `limit` pending hits, or all of them when fewer
      are pending. */
  lemma ListTakesPending(store: seq<Hit>, limit: nat, after: int)
    ensures var pending := Pending(store, after);
      List(store, limit, after).hits == pending[..if limit <= |pending| then limit else |pending|]
  {
  }

  /** A page holds stored hits above the checkpoint only, in ascending order. */
  lemma ListPage(store: seq<Hit>, limit: nat, after: int)
    requires Ascending(store)
    ensures var p := List(store, limit, after);
      && (forall h :: h in p.hits ==> h in store && h.id > after)
      && Ascending(p.hits)
  {
    PendingExactly(store, after);
    PendingAscending(store, after);
    ListTakesPending(store, limit, after);
    var p := List(store, limit, after);
    forall h | h in p.hits
      ensures h in Pending(store, after)
    {
      var i :| 0 <= i < |p.hits| && p.hits[i] == h;
      assert Pending(store, after)[i] == h;
    }
  }

  /** The last hit of a run starting at the checkpoint's position lies after
      the checkpoint, and the run ends where that hit's ID is the checkpoint. */
  lemma RunEnd(store: seq<Hit>, after: int, k: nat, e: nat)
    requires Ascending(store) && k == FirstAfter(store, after) && k < e <= |store|
    ensures store[e - 1].id > after
    ensures FirstAfter(store, store[e - 1].id) == e
  {
    FirstAfterSplits(store, after);
    var x := store[e - 1].id;
    if k < e - 1 {
      assert store[k].id < x;
    }
    forall i | 0 <= i < e
      ensures store[i].id <= x
    {
      if i < e - 1 {
        assert store[i].id < x;
      }
    }
    FirstAfterUnique(store, x, e);
  }

  /** Taking a page moves the checkpoint exactly past it: the page is the
      next run of the store, and what follows the new checkpoint is what
      follows the page. */
  lemma PageAdvances(store: seq<Hit>, limit: nat, after: int, k: nat, p: Page)
    requires Ascending(store)
    requires k == FirstAfter(store, after) && p == List(store, limit, after)
    ensures k + |p.hits| <= |store|
    ensures p.hits == store[k..k + |p.hits|]
    ensures FirstAfter(store, p.last) == k + |p.hits|
    ensures p.hits != [] ==> p.last > after
    ensures p.hits == [] ==> limit == 0 || k == |store|
  {
    var m := |p.hits|;
    assert p.hits == store[k..k + m];
    if m > 0 {
      RunEnd(store, after, k, k + m);
    } else {
      assert Pending(store, after) == store[k..];
    }
  }

  /** The first n pending hits are the n stored hits from the checkpoint's
      position on. */
  lemma PendingPrefix(store: seq<Hit>, x: int, k: nat, n: nat)
    requires k == FirstAfter(store, x) && k + n <= |store|
    ensures n <= |Pending(store, x)|
    ensures Pending(store, x)[..n] == store[k..k + n]
    ensures n > 0 ==> Pending(store, x)[n - 1] == store[k + n - 1]
    ensures k + n == |store| ==> n == |Pending(store, x)|
  {
  }

  /** Rows written for two adjacent runs of the store are the rows of the
      joined run. */
  lemma RowsOfRuns(w: seq<seq<string>>, store: seq<Hit>, a: nat, b: nat, c: nat, lib: Library)
    requires a <= b <= c <= |store|
    ensures w + Rows(store[a..b], lib) + Rows(store[b..c], lib) == w + Rows(store[a..c], lib)
  {
    RowsAppend(store[a..b], store[b..c], lib);
    assert store[a..b] + store[b..c] == store[a..c];
  }

  /** Writes one row per hit of a page, in order, after the rows so far. */
  method WritePage(written: seq<seq<string>>, hits: seq<Hit>, lib: Library)
    returns (w: seq<seq<string>>)
    ensures w == written + Rows(hits, lib)
  {
    w := written;
    for j := 0 to |hits|
      invariant w == written + Rows(hits[..j], lib)
    {
      RowsAppend(hits[..j], [hits[j]], lib);
      assert hits[..j + 1] == hits[..j] + [hits[j]];
      w := w + [EncodeRow(hits[j], lib)];
    }
    assert hits[..|hits|] == hits;
  }

  /** Where the export loop stands between two passes. */
  datatype Cursor = Cursor(pos: nat, n: nat, last: int, written: seq<seq<string>>, more: bool, failed: bool)

  /** Where the loop stands: n rows are written, for the pending hits at
      store positions k0 up to pos, and the checkpoint `last` is the last of
      them; `more` is false once the loop has stopped, `failed` once it
      stopped on an error. */
  ghost predicate Progress(store: seq<Hit>, start: int, lib: Library, c: Cursor)
  {
    var k0 := FirstAfter(store, start);
    && c.pos == k0 + c.n && c.pos <= |store|
    && c.written == [Header] + Rows(store[k0..c.pos], lib)
    && c.last >= start
    && (c.n > 0 ==> c.last >= store[c.pos - 1].id)
    && (c.more || !c.failed ==> c.last == if c.n == 0 then start else store[c.pos - 1].id)
    && (c.more ==> FirstAfter(store, c.last) == c.pos && !c.failed)
    && (!c.more && !c.failed ==> c.pos == |store|)
  }

  /** A pass that stops the loop keeps Progress. */
  lemma PassStops(store: seq<Hit>, start: int, lib: Library, c: Cursor, page: Page, listErr: bool)
    requires Ascending(store)
    requires Progress(store, start, lib, c) && c.more
    requires page == List(store, BatchSize, c.last) && (page.hits == [] || listErr)
    ensures Progress(store, start, lib, c.(last := page.last, more := false, failed := listErr))
  {
    PageAdvances(store, BatchSize, c.last, c.pos, page);
  }

  /** A pass that writes a page keeps Progress. */
  lemma PassWrites(store: seq<Hit>, start: int, lib: Library, c: Cursor, page: Page, flushErr: bool, d: Cursor)
    requires Ascending(store)
    requires Progress(store, start, lib, c) && c.more
    requires page == List(store, BatchSize, c.last) && page.hits != []
    requires d == Cursor(c.pos + |page.hits|, c.n + |page.hits|, page.last,
                         c.written + Rows(page.hits, lib), !flushErr, flushErr)
    ensures Progress(store, start, lib, d)
  {
    var k0 := FirstAfter(store, start);
    PageAdvances(store, BatchSize, c.last, c.pos, page);
    assert page.hits == store[c.pos..d.pos];
    assert d.written == [Header] + Rows(store[k0..d.pos], lib) by {
      RowsOfRuns([Header], store, k0, c.pos, d.pos, lib);
    }
    assert d.last == store[d.pos - 1].id by {
      assert page.hits[|page.hits| - 1] == store[d.pos - 1];
    }
    assert d.pos == k0 + d.n && d.pos <= |store| && d.last >= start;
    assert FirstAfter(store, d.last) == d.pos;
  }

  /** Once the loop has stopped, Progress speaks of a prefix of the pending
      hits: all of them unless the loop failed. */
  lemma Stopped(store: seq<Hit>, start: int, lib: Library, c: Cursor)
    requires Progress(store, start, lib, c) && !c.more
    ensures c.n <= |Pending(store, start)|
    ensures c.written == [Header] + Rows(Pending(store, start)[..c.n], lib)
    ensures c.last >= start
    ensures c.n > 0 ==> c.last >= Pending(store, start)[c.n - 1].id
    ensures !c.failed ==> c.n == |Pending(store, start)|
    ensures !c.failed ==> c.last == if c.n == 0 then start else Pending(store, start)[c.n - 1].id
  {
    PendingPrefix(store, start, FirstAfter(store, start), c.n);
  }

  /** No listing and no flush of the first n pages fails. */
  ghost predicate NoErrorsBefore(listFails: nat -> bool, flushFails: nat -> bool, n: nat)
  {
    forall b: nat :: b < n ==> !listFails(b) && !flushFails(b)
  }

  /** What the loop knows of the errors after `tried` passes: while it goes
      on none of them failed; once it stopped, only the last pass may have
      failed, a listing error there fails the run, and the run fails only
      on an error of that pass. */
  ghost predicate ErrorsSoFar(listFails: nat -> bool, flushFails: nat -> bool, tried: nat, more: bool, failed: bool)
  {
    && (more ==> NoErrorsBefore(listFails, flushFails, tried))
    && (!more ==>
          && tried >= 1
          && NoErrorsBefore(listFails, flushFails, tried - 1)
          && (listFails(tried - 1) ==> failed)
          && (failed ==> listFails(tried - 1) || flushFails(tried - 1)))
  }

  /** A pass that goes on only without an error, and fails exactly as its
      errors allow, keeps ErrorsSoFar. */
  lemma ErrorsStep(listFails: nat -> bool, flushFails: nat -> bool, tried: nat, more: bool, failed: bool)
    requires NoErrorsBefore(listFails, flushFails, tried)
    requires more ==> !listFails(tried) && !flushFails(tried)
    requires listFails(tried) ==> failed
    requires failed ==> listFails(tried) || flushFails(tried)
    ensures ErrorsSoFar(listFails, flushFails, tried + 1, more, failed)
  {
  }

  /** The smaller of a and b. */
  function Min(a: int, b: int): (m: int)
    ensures m <= a && m <= b && (m == a || m == b)
  {
    if a <= b then a else b
  }

  /** While the loop goes on, the next page holds a full batch of the
      pending hits not yet written, or all of them when fewer are left. */
  lemma PageSize(store: seq<Hit>, start: int, lib: Library, c: Cursor)
    requires Progress(store, start, lib, c) && c.more
    ensures c.n <= |Pending(store, start)|
    ensures |List(store, BatchSize, c.last).hits| == Min(BatchSize, |Pending(store, start)| - c.n)
  {
    ListTakesPending(store, BatchSize, c.last);
  }

  /** What the loop knows of its row count n after `tried` passes over
      `pending` hits: every pass but the last wrote a full batch or the rest,
      and every pass that went on wrote a non-empty page. Once it stopped,
      the last pass also wrote its page exactly when it failed although its
      listing succeeded, that is on its flush. The batch size 5000 is written
      out so that the products stay linear. */
  ghost predicate Counted(pending: nat, listFails: nat -> bool, tried: nat, more: bool, failed: bool, n: nat)
  {
    && (more ==>
          && n == Min(pending, 5000 * tried)
          && (tried >= 1 ==> 5000 * (tried - 1) < pending))
    && (!more ==>
          && tried >= 1
          && n == Min(pending, 5000 * (if failed && !listFails(tried - 1) then tried else tried - 1))
          && (tried >= 2 ==> 5000 * (tried - 2) < pending)
          && (failed && !listFails(tried - 1) ==> 5000 * (tried - 1) < pending))
  }

  /** A pass that writes a page of `size` hits unless its listing fails or
      the page is empty, and goes on exactly when it wrote and flushed, keeps
      Counted. */
  lemma CountStep(pending: nat, listFails: nat -> bool, tried: nat, n: nat, size: nat, flushErr: bool,
                  n': nat, more': bool, failed': bool)
    requires Counted(pending, listFails, tried, true, false, n)
    requires size == Min(BatchSize, pending - n)
    requires size == 0 || listFails(tried) ==> n' == n && !more' && failed' == listFails(tried)
    requires size != 0 && !listFails(tried) ==> n' == n + size && more' == !flushErr && failed' == flushErr
    ensures Counted(pending, listFails, tried + 1, more', failed', n')
  {
  }

  /** How a run over `pending` hits ends, given which listings and flushes
      fail: it tried `passes` pages, every page but the last listed and
      flushed without error and was not empty; the last one stopped the loop,
      failing the run on a listing error, or on a flush error after writing a
      non-empty page, and otherwise being empty. The n rows written are the
      full pages before the last one, and the last one too when it failed on
      its flush. The batch size 5000 is written out so that the products stay
      linear. */
  ghost predicate Outcome(pending: nat, listFails: nat -> bool, flushFails: nat -> bool,
                          passes: nat, failed: bool, n: nat)
  {
    && passes >= 1
    && NoErrorsBefore(listFails, flushFails, passes - 1)
    && (passes >= 2 ==> 5000 * (passes - 2) < pending)
    && (listFails(passes - 1) ==> failed)
    && (failed ==> listFails(passes - 1) || flushFails(passes - 1))
    && (failed && !listFails(passes - 1) ==> 5000 * (passes - 1) < pending)
    && (!failed ==> pending <= 5000 * (passes - 1))
    && n == Min(pending, 5000 * (if failed && !listFails(passes - 1) then passes else passes - 1))
  }

  /** The stopped loop ends as Outcome says. */
  lemma RunEnds(pending: nat, listFails: nat -> bool, flushFails: nat -> bool, passes: nat, failed: bool, n: nat)
    requires ErrorsSoFar(listFails, flushFails, passes, false, failed)
    requires Counted(pending, listFails, passes, false, failed, n)
    requires !failed ==> n == pending
    ensures Outcome(pending, listFails, flushFails, passes, failed, n)
    ensures (forall b :: !listFails(b) && !flushFails(b)) ==> !failed
  {
  }

  /** Page b stops the loop: its listing or flush fails, or nothing is left
      for it. */
  ghost predicate Stops(pending: nat, listFails: nat -> bool, flushFails: nat -> bool, b: nat)
  {
    listFails(b) || flushFails(b) || pending <= 5000 * b
  }

  /** The last page a run tries is the first one that stops the loop. */
  lemma OutcomeStopsAtFirst(pending: nat, listFails: nat -> bool, flushFails: nat -> bool,
                            passes: nat, failed: bool, n: nat)
    requires Outcome(pending, listFails, flushFails, passes, failed, n)
    ensures Stops(pending, listFails, flushFails, passes - 1)
    ensures forall b: nat :: b < passes - 1 ==> !Stops(pending, listFails, flushFails, b)
  {
    forall b: nat | b < passes - 1
      ensures !Stops(pending, listFails, flushFails, b)
    {
      assert 5000 * b <= 5000 * (passes - 2);
    }
  }

  /** Outcome leaves no choice: the failures of listing and flushing decide
      how many pages the run tries, whether it fails and how many rows it
      writes. */
  lemma OutcomeUnique(pending: nat, listFails: nat -> bool, flushFails: nat -> bool,
                      p1: nat, f1: bool, n1: nat, p2: nat, f2: bool, n2: nat)
    requires Outcome(pending, listFails, flushFails, p1, f1, n1)
    requires Outcome(pending, listFails, flushFails, p2, f2, n2)
    ensures p1 == p2 && f1 == f2 && n1 == n2
  {
    OutcomeStopsAtFirst(pending, listFails, flushFails, p1, f1, n1);
    OutcomeStopsAtFirst(pending, listFails, flushFails, p2, f2, n2);
    assert p1 == p2;
    var last := p1 - 1;
    if !listFails(last) {
      assert f1 <==> 5000 * last < pending;
      assert f2 <==> 5000 * last < pending;
    }
  }

  /** An export job as the loop sees it. */
  class Export {
    /** The checkpoint the job starts from. */
    var StartFromHitID: int
    /** The ID of the last hit exported; the checkpoint to resume from. */
    var LastHitID: int
    /** The number of rows written. */
    var NumRows: nat

    constructor (startFrom: int)
      ensures StartFromHitID == startFrom && LastHitID == startFrom && NumRows == 0
    {
      StartFromHitID := startFrom;
      LastHitID := startFrom;
      NumRows := 0;
    }

    /** One pass of the loop of Export.Run: list the page after the
        checkpoint and move the checkpoint to the page's end; an empty page or
        a listing error ends the loop, otherwise the page's rows are written
        after `w` and counted, and the loop goes on unless the flush fails.
        The ghost cursors c and d say where the loop stands before and after. */
    method NextPage(store: seq<Hit>, lib: Library, w: seq<seq<string>>, listErr: bool, flushErr: bool, ghost c: Cursor)
      returns (written: seq<seq<string>>, more: bool, failed: bool, ghost d: Cursor)
      requires Ascending(store)
      requires Progress(store, StartFromHitID, lib, c) && c.more
      requires c.n == NumRows && c.last == LastHitID && c.written == w
      modifies this
      ensures var page := List(store, BatchSize, old(LastHitID));
        && StartFromHitID == old(StartFromHitID) && LastHitID == page.last
        && (page.hits == [] || listErr ==> NumRows == old(NumRows) && written == w && !more && failed == listErr)
        && (page.hits != [] && !listErr ==>
              NumRows == old(NumRows) + |page.hits| && written == w + Rows(page.hits, lib)
              && more == !flushErr && failed == flushErr)
      ensures Progress(store, StartFromHitID, lib, d)
      ensures d.n == NumRows && d.last == LastHitID && d.written == written && d.more == more && d.failed == failed
      ensures more ==> d.pos > c.pos && !listErr && !flushErr
      ensures listErr ==> failed
      ensures failed ==> listErr || flushErr
    {
      var page := List(store, BatchSize, LastHitID);
      LastHitID := page.last;
      if |page.hits| == 0 || listErr {
        PassStops(store, StartFromHitID, lib, c, page, listErr);
        d := c.(last := page.last, more := false, failed := listErr);
        written, more, failed := w, false, listErr;
      } else {
        d := Cursor(c.pos + |page.hits|, c.n + |page.hits|, page.last, c.written + Rows(page.hits, lib), !flushErr, flushErr);
        PassWrites(store, StartFromHitID, lib, c, page, flushErr, d);
        NumRows := NumRows + |page.hits|;
        written := WritePage(w, page.hits, lib);
        more, failed := !flushErr, flushErr;
      }
    }

    /** Pass number `batch` of the loop: NextPage on that page's listing and
        flush errors, with what the loop knows of its errors and its row
        count carried over to the next pass. */
    method Pass(store: seq<Hit>, lib: Library, listFails: nat -> bool, flushFails: nat -> bool,
                batch: nat, w: seq<seq<string>>, ghost c: Cursor)
      returns (written: seq<seq<string>>, more: bool, failed: bool, ghost d: Cursor)
      requires Ascending(store)
      requires Progress(store, StartFromHitID, lib, c) && c.more
      requires c.n == NumRows && c.last == LastHitID && c.written == w
      requires ErrorsSoFar(listFails, flushFails, batch, true, false)
      requires Counted(|Pending(store, StartFromHitID)|, listFails, batch, true, false, c.n)
      modifies this
      ensures StartFromHitID == old(StartFromHitID)
      ensures Progress(store, StartFromHitID, lib, d)
      ensures d.n == NumRows && d.last == LastHitID && d.written == written && d.more == more && d.failed == failed
      ensures more ==> d.pos > c.pos
      ensures ErrorsSoFar(listFails, flushFails, batch + 1, more, failed)
      ensures Counted(|Pending(store, StartFromHitID)|, listFails, batch + 1, more, failed, d.n)
    {
      PageSize(store, StartFromHitID, lib, c);
      ghost var size := |List(store, BatchSize, c.last).hits|;
      written, more, failed, d := NextPage(store, lib, w, listFails(batch), flushFails(batch), c);
      ErrorsStep(listFails, flushFails, batch, more, failed);
      CountStep(|Pending(store, StartFromHitID)|, listFails, batch, c.n, size, flushFails(batch), d.n, more, failed);
    }

    /** Export.Run: the header, then the paging loop. `written` is the rows
        handed to the CSV writer, header first; `failed` says whether the run
        ended with an error. listFails(b) and flushFails(b) say whether
        listing, and flushing, the b-th page fails; `passes` counts the pages
        the loop tried, and Outcome fixes it, `failed` and NumRows from the
        failures and the number of pending hits. */
    method Run(store: seq<Hit>, lib: Library, listFails: nat -> bool, flushFails: nat -> bool)
      returns (written: seq<seq<string>>, failed: bool, ghost passes: nat)
      requires Ascending(store)
      modifies this
      ensures StartFromHitID == old(StartFromHitID)
      ensures NumRows <= |Pending(store, StartFromHitID)|
      ensures written == [Header] + Rows(Pending(store, StartFromHitID)[..NumRows], lib)
      ensures LastHitID >= StartFromHitID
      ensures NumRows > 0 ==> LastHitID >= Pending(store, StartFromHitID)[NumRows - 1].id
      ensures !failed ==> NumRows == |Pending(store, StartFromHitID)|
      ensures !failed ==> LastHitID == if NumRows == 0 then StartFromHitID else Pending(store, StartFromHitID)[NumRows - 1].id
      ensures (forall b :: !listFails(b) && !flushFails(b)) ==> !failed
      ensures Outcome(|Pending(store, StartFromHitID)|, listFails, flushFails, passes, failed, NumRows)
    {
      written := [Header];
      LastHitID := StartFromHitID;
      NumRows := 0;
      ghost var c := Cursor(FirstAfter(store, StartFromHitID), 0, StartFromHitID, written, true, false);
      written, failed, passes, c := Passes(store, lib, listFails, flushFails, written, c);
      Stopped(store, StartFromHitID, lib, c);
      RunEnds(|Pending(store, StartFromHitID)|, listFails, flushFails, passes, failed, NumRows);
    }

    /** The loop of Export.Run, from the first page on: it makes pass 0, 1,
        ... until one stops it, and reports how many passes it made. On return
        the loop state is a stopped cursor, only the last pass may have met an
        error, and the row count is what Counted says. */
    method Passes(store: seq<Hit>, lib: Library, listFails: nat -> bool, flushFails: nat -> bool,
                  w: seq<seq<string>>, ghost c0: Cursor)
      returns (written: seq<seq<string>>, failed: bool, ghost passes: nat, ghost c: Cursor)
      requires Ascending(store)
      requires Progress(store, StartFromHitID, lib, c0) && c0.more && !c0.failed
      requires c0.n == NumRows && c0.last == LastHitID && c0.written == w && c0.n == 0
      modifies this
      ensures StartFromHitID == old(StartFromHitID)
      ensures Progress(store, StartFromHitID, lib, c) && !c.more
      ensures c.n == NumRows && c.last == LastHitID && c.written == written && c.failed == failed
      ensures ErrorsSoFar(listFails, flushFails, passes, false, failed)
      ensures Counted(|Pending(store, StartFromHitID)|, listFails, passes, false, failed, NumRows)
    {
      written, failed, c := w, false, c0;
      var batch: nat := 0;
      var more := true;
      while more
        invariant StartFromHitID == old(StartFromHitID)
        invariant Progress(store, StartFromHitID, lib, c)
        invariant c.n == NumRows && c.last == LastHitID && c.written == written
        invariant c.more == more && c.failed == failed
        invariant ErrorsSoFar(listFails, flushFails, batch, more, failed)
        invariant Counted(|Pending(store, StartFromHitID)|, listFails, batch, more, failed, c.n)
        decreases more, |store| - c.pos
      {
        written, more, failed, c := Pass(store, lib, listFails, flushFails, batch, written, c);
        batch := batch + 1;
      }
      passes := batch;
    }
  }
}
