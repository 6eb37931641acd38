/**
 * The paginated history walker (`getCommitsSince`): pages of at most
 * ChunkSize commits are requested from the repository's log at skips 0,
 * ChunkSize, 2 * ChunkSize, ... until a page comes back empty; the pages are
 * flattened in order and the commits authored strictly after the cutoff are
 * kept.
 *
 * The repository's history is a sequence `h` in the order the log returns it
 * (most recent first), and `log(skip, maxCount)` returns a slice of it. A
 * fetch can fail; `fetchOk(skip)` says whether the fetch at `skip` succeeds.
 */
module Walker {
  import opened Commits

  /** CHUNK_SIZE. */
  const ChunkSize: nat := 100

  function Min(a: int, b: int): int {
    if a <= b then a else b
  }

  /** git.log().setSkip(skip).setMaxCount(maxCount).call(), on a history `h`. */
  function Log(h: seq<Commit>, skip: nat, maxCount: nat): (page: seq<Commit>)
    ensures |page| == if skip < |h| then Min(maxCount, |h| - skip) else 0
    ensures forall k :: 0 <= k < |page| ==> page[k] == h[skip + k]
  {
    if skip < |h| then h[skip .. Min(skip + maxCount, |h|)] else []
  }

  /** The Pair the stream iterates over: the skip of the next fetch and the page just fetched. */
  datatype Cursor = Cursor(nextSkip: nat, page: seq<Commit>)

  /** The seed of the iteration: the page at skip 0. */
  function Seed(h: seq<Commit>): Cursor {
    Cursor(ChunkSize, Log(h, 0, ChunkSize))
  }

  /** The iteration step: fetch the page at the cursor's next skip. */
  function Advance(h: seq<Commit>, c: Cursor): Cursor {
    Cursor(c.nextSkip + ChunkSize, Log(h, c.nextSkip, ChunkSize))
  }

  /** A cursor built by Seed or Advance: its page is the one at nextSkip - ChunkSize. */
  ghost predicate Fetched(h: seq<Commit>, c: Cursor) {
    c.nextSkip >= ChunkSize && c.page == Log(h, c.nextSkip - ChunkSize, ChunkSize)
  }

  /** How a walk ended: an empty page, or an exception from the fetch at `skip`. */
  datatype End = Exhausted | FetchFailed(skip: nat)

  /**
   * One walk: the skips of every fetch attempted, in order; the pages passed
   * downstream, in order; and how the walk ended.
   */
  datatype Walk = Walk(skips: seq<nat>, pages: seq<seq<Commit>>, end: End)

  /**
   * Stream.iterate(c, pair -> pair.second has a commit, step): a cursor with
   * an empty page ends the stream; otherwise its page goes downstream and the
   * next page is fetched, which may throw.
   */
  function IterateFrom(h: seq<Commit>, c: Cursor, fetchOk: nat -> bool): (w: Walk)
    requires Fetched(h, c)
    ensures |w.pages| == |w.skips|
    ensures w.end.FetchFailed? ==> |w.skips| > 0 && w.end.skip == w.skips[|w.skips| - 1]
    decreases |h| + ChunkSize - c.nextSkip
  {
    if c.page == [] then
      Walk([], [], Exhausted)
    else if !fetchOk(c.nextSkip) then
      Walk([c.nextSkip], [c.page], FetchFailed(c.nextSkip))
    else
      var rest := IterateFrom(h, Advance(h, c), fetchOk);
      Walk([c.nextSkip] + rest.skips, [c.page] + rest.pages, rest.end)
  }

  /**
   * The whole pagination: the eager seed fetch at skip 0, then the iteration.
   * A failing seed fetch ends the walk before any page goes downstream.
   */
  function Paginate(h: seq<Commit>, fetchOk: nat -> bool): (w: Walk)
    ensures |w.skips| == |w.pages| + 1
    ensures w.skips[0] == 0
  {
    if !fetchOk(0) then
      Walk([0], [], FetchFailed(0))
    else
      var rest := IterateFrom(h, Seed(h), fetchOk);
      Walk([0] + rest.skips, rest.pages, rest.end)
  }

  /** The flatMap over pages. */
  function Flatten(pages: seq<seq<Commit>>): (all: seq<Commit>)
  {
    if pages == [] then [] else pages[0] + Flatten(pages[1..])
  }

  /** The filter on the authored date: keep commits strictly after `since`, in order. */
  function After(commits: seq<Commit>, since: LocalDay): (kept: seq<Commit>)
    ensures |kept| <= |commits|
    ensures forall i :: 0 <= i < |kept| ==> IsAfter(kept[i].authoredDay, since)
  {
    if commits == [] then []
    else if IsAfter(commits[0].authoredDay, since) then [commits[0]] + After(commits[1..], since)
    else After(commits[1..], since)
  }

  /** getCommitsSince: the commits that reach the consumer. */
  function CommitsSince(h: seq<Commit>, since: LocalDay, fetchOk: nat -> bool): seq<Commit> {
    After(Flatten(Paginate(h, fetchOk).pages), since)
  }

  /** Number of pages holding `n` commits: n / ChunkSize rounded up. */
  function PageCount(n: nat): nat {
    (n + ChunkSize - 1) / ChunkSize
  }

  /** `s` is `t` with some elements removed, the rest in their order. */
  ghost predicate IsSubsequence<T>(s: seq<T>, t: seq<T>)
    decreases |t|
  {
    if s == [] then true
    else if t == [] then false
    else (s[0] == t[0] && IsSubsequence(s[1..], t[1..])) || IsSubsequence(s, t[1..])
  }

  // ---------------------------------------------------------------------------
  // The iteration, from any fetched cursor whose page sits at skip `base`.

  lemma {:induction false} IterateSkips(h: seq<Commit>, c: Cursor, fetchOk: nat -> bool)
    requires Fetched(h, c)
    ensures forall i :: 0 <= i < |IterateFrom(h, c, fetchOk).skips| ==>
      IterateFrom(h, c, fetchOk).skips[i] == c.nextSkip + i * ChunkSize
    decreases |h| + ChunkSize - c.nextSkip
  {
    if c.page != [] && fetchOk(c.nextSkip) {
      var c' := Advance(h, c);
      IterateSkips(h, c', fetchOk);
      var w, rest := IterateFrom(h, c, fetchOk), IterateFrom(h, c', fetchOk);
      forall i | 1 <= i < |w.skips|
        ensures w.skips[i] == c.nextSkip + i * ChunkSize
      {
        assert w.skips[i] == rest.skips[i - 1] == c'.nextSkip + (i - 1) * ChunkSize;
        assert (i - 1) * ChunkSize + ChunkSize == i * ChunkSize;
      }
    }
  }

  lemma {:induction false} IteratePages(h: seq<Commit>, c: Cursor, fetchOk: nat -> bool)
    requires Fetched(h, c)
    ensures forall i :: 0 <= i < |IterateFrom(h, c, fetchOk).pages| ==>
      && IterateFrom(h, c, fetchOk).pages[i] != []
      && IterateFrom(h, c, fetchOk).pages[i] == Log(h, c.nextSkip - ChunkSize + i * ChunkSize, ChunkSize)
    decreases |h| + ChunkSize - c.nextSkip
  {
    if c.page != [] && fetchOk(c.nextSkip) {
      var c' := Advance(h, c);
      IteratePages(h, c', fetchOk);
      var w, rest := IterateFrom(h, c, fetchOk), IterateFrom(h, c', fetchOk);
      forall i | 1 <= i < |w.pages|
        ensures w.pages[i] == Log(h, c.nextSkip - ChunkSize + i * ChunkSize, ChunkSize)
      {
        assert w.pages[i] == rest.pages[i - 1];
        assert rest.pages[i - 1] == Log(h, c'.nextSkip - ChunkSize + (i - 1) * ChunkSize, ChunkSize);
        assert (i - 1) * ChunkSize + ChunkSize == i * ChunkSize;
      }
    }
  }

  lemma {:induction false} IterateEnd(h: seq<Commit>, c: Cursor, fetchOk: nat -> bool)
    requires Fetched(h, c)
    ensures var w := IterateFrom(h, c, fetchOk);
      && (w.end == Exhausted ==>
            Log(h, c.nextSkip - ChunkSize + |w.pages| * ChunkSize, ChunkSize) == []
            && forall i :: 0 <= i < |w.skips| ==> fetchOk(w.skips[i]))
      && (w.end.FetchFailed? ==>
            !fetchOk(w.end.skip) && forall i :: 0 <= i < |w.skips| - 1 ==> fetchOk(w.skips[i]))
    decreases |h| + ChunkSize - c.nextSkip
  {
    if c.page != [] && fetchOk(c.nextSkip) {
      IterateEnd(h, Advance(h, c), fetchOk);
    }
  }

  lemma {:induction false} IterateCoverage(h: seq<Commit>, c: Cursor, fetchOk: nat -> bool)
    requires Fetched(h, c)
    requires c.nextSkip - ChunkSize <= |h|
    ensures var w := IterateFrom(h, c, fetchOk);
      Flatten(w.pages) == h[c.nextSkip - ChunkSize .. Min(c.nextSkip - ChunkSize + |w.pages| * ChunkSize, |h|)]
    decreases |h| + ChunkSize - c.nextSkip
  {
    var base := c.nextSkip - ChunkSize;
    var w := IterateFrom(h, c, fetchOk);
    if c.page == [] {
      assert w.pages == [];
    } else if !fetchOk(c.nextSkip) {
      assert w.pages == [c.page];
      assert Flatten(w.pages) == c.page + Flatten([]);
    } else {
      var c' := Advance(h, c);
      var rest := IterateFrom(h, c', fetchOk);
      assert c.nextSkip < |h| + ChunkSize;
      if c.nextSkip <= |h| {
        IterateCoverage(h, c', fetchOk);
        assert w.pages[1..] == rest.pages;
        assert Flatten(w.pages) == c.page + Flatten(rest.pages);
        assert c.page == h[base .. c.nextSkip];
        assert Flatten(rest.pages) == h[c.nextSkip .. Min(c.nextSkip + |rest.pages| * ChunkSize, |h|)];
        assert h[base .. Min(base + |w.pages| * ChunkSize, |h|)]
            == h[base .. c.nextSkip] + h[c.nextSkip .. Min(c.nextSkip + |rest.pages| * ChunkSize, |h|)];
      } else {
        assert c'.page == [];
        assert rest.pages == [];
        assert w.pages == [c.page];
        assert Flatten(w.pages) == c.page + Flatten([]);
        assert c.page == h[base .. |h|];
      }
    }
  }

  // ---------------------------------------------------------------------------
  // The whole pagination.

  /** Fetch i is requested at skip i * ChunkSize: 0, 100, 200, ... */
  lemma PaginateSkips(h: seq<Commit>, fetchOk: nat -> bool)
    ensures forall i :: 0 <= i < |Paginate(h, fetchOk).skips| ==> Paginate(h, fetchOk).skips[i] == i * ChunkSize
  {
    if fetchOk(0) {
      var w, rest := Paginate(h, fetchOk), IterateFrom(h, Seed(h), fetchOk);
      IterateSkips(h, Seed(h), fetchOk);
      forall i | 1 <= i < |w.skips|
        ensures w.skips[i] == i * ChunkSize
      {
        assert w.skips[i] == rest.skips[i - 1] == ChunkSize + (i - 1) * ChunkSize;
      }
    }
  }

  /** Page i passed downstream is the non-empty result of fetch i. */
  lemma PaginatePages(h: seq<Commit>, fetchOk: nat -> bool)
    ensures forall i :: 0 <= i < |Paginate(h, fetchOk).pages| ==>
      && Paginate(h, fetchOk).pages[i] != []
      && Paginate(h, fetchOk).pages[i] == Log(h, Paginate(h, fetchOk).skips[i], ChunkSize)
  {
    PaginateSkips(h, fetchOk);
    if fetchOk(0) {
      IteratePages(h, Seed(h), fetchOk);
    }
  }

  /**
   * The walk stops at the first empty page and at nothing else: when it ends
   * normally, the last fetch returned an empty page and every fetch
   * succeeded; when it ends by an exception, that was the last fetch and
   * every earlier one succeeded.
   */
  lemma PaginateEnd(h: seq<Commit>, fetchOk: nat -> bool)
    ensures var w := Paginate(h, fetchOk);
      && (w.end == Exhausted ==>
            Log(h, w.skips[|w.skips| - 1], ChunkSize) == []
            && forall i :: 0 <= i < |w.skips| ==> fetchOk(w.skips[i]))
      && (w.end.FetchFailed? ==>
            w.end.skip == w.skips[|w.skips| - 1]
            && !fetchOk(w.end.skip)
            && forall i :: 0 <= i < |w.skips| - 1 ==> fetchOk(w.skips[i]))
  {
    var w := Paginate(h, fetchOk);
    PaginateSkips(h, fetchOk);
    if fetchOk(0) {
      var rest := IterateFrom(h, Seed(h), fetchOk);
      IterateEnd(h, Seed(h), fetchOk);
      IterateSkips(h, Seed(h), fetchOk);
      assert w.skips[|w.skips| - 1] == |rest.pages| * ChunkSize;
      forall i | 1 <= i < |w.skips|
        ensures w.skips[i] == rest.skips[i - 1]
      {
      }
    }
  }

  /** The pages passed downstream, flattened, are the history up to the last fetch's skip. */
  lemma PaginateCoverage(h: seq<Commit>, fetchOk: nat -> bool)
    ensures var w := Paginate(h, fetchOk);
      Flatten(w.pages) == h[.. Min(w.skips[|w.skips| - 1], |h|)]
  {
    var w := Paginate(h, fetchOk);
    PaginateSkips(h, fetchOk);
    if fetchOk(0) {
      var rest := IterateFrom(h, Seed(h), fetchOk);
      IterateCoverage(h, Seed(h), fetchOk);
      assert w.skips[|w.skips| - 1] == |rest.pages| * ChunkSize;
    }
  }

  /**
   * A walk that ends normally passes the whole history downstream, each
   * commit once and in the log's order, after exactly PageCount(|h|) + 1
   * fetches (the last one returning an empty page).
   */
  lemma WalkCoversHistory(h: seq<Commit>, fetchOk: nat -> bool)
    requires Paginate(h, fetchOk).end == Exhausted
    ensures Flatten(Paginate(h, fetchOk).pages) == h
    ensures |Paginate(h, fetchOk).skips| == PageCount(|h|) + 1
  {
    var w := Paginate(h, fetchOk);
    var k := |w.skips| - 1;
    PaginateSkips(h, fetchOk);
    PaginateEnd(h, fetchOk);
    PaginateCoverage(h, fetchOk);
    PaginatePages(h, fetchOk);
    assert w.skips[k] == k * ChunkSize;
    assert |h| <= k * ChunkSize;
    if k > 0 {
      assert w.pages[k - 1] != [];
      assert w.skips[k - 1] == (k - 1) * ChunkSize < |h|;
    }
    assert (k - 1) * ChunkSize < |h| || k == 0;
  }

  /** With no fetch failing, the walk ends normally. */
  lemma AllFetchesOkExhausts(h: seq<Commit>, fetchOk: nat -> bool)
    requires forall s :: fetchOk(s)
    ensures Paginate(h, fetchOk).end == Exhausted
  {
    PaginateEnd(h, fetchOk);
  }

  /**
   * A walk aborted by the fetch at skip `s` has passed downstream exactly the
   * history before `s`: nothing after it, nothing skipped.
   */
  lemma AbortedWalkPrefix(h: seq<Commit>, fetchOk: nat -> bool)
    requires Paginate(h, fetchOk).end.FetchFailed?
    ensures var s := Paginate(h, fetchOk).end.skip;
      && !fetchOk(s)
      && s % ChunkSize == 0
      && s <= PageCount(|h|) * ChunkSize
      && Flatten(Paginate(h, fetchOk).pages) == h[.. Min(s, |h|)]
  {
    var w := Paginate(h, fetchOk);
    var k := |w.skips| - 1;
    PaginateSkips(h, fetchOk);
    PaginateEnd(h, fetchOk);
    PaginateCoverage(h, fetchOk);
    PaginatePages(h, fetchOk);
    assert w.end.skip == k * ChunkSize;
    if k > 0 {
      assert w.pages[k - 1] != [];
      assert w.skips[k - 1] == (k - 1) * ChunkSize < |h|;
    }
  }

  /** 250 commits: pages of 100, 100 and 50, then the empty page at skip 300. */
  lemma TwoHundredFiftyCommits(h: seq<Commit>, fetchOk: nat -> bool)
    requires |h| == 250
    requires forall s :: fetchOk(s)
    ensures Paginate(h, fetchOk).skips == [0, 100, 200, 300]
  {
    AllFetchesOkExhausts(h, fetchOk);
    WalkCoversHistory(h, fetchOk);
    PaginateSkips(h, fetchOk);
  }

  // ---------------------------------------------------------------------------
  // The cutoff filter.

  /** The filter keeps each commit authored after `since` as often as it occurs, and no other. */
  lemma {:induction false} AfterExact(commits: seq<Commit>, since: LocalDay, x: Commit)
    ensures multiset(After(commits, since))[x]
         == if IsAfter(x.authoredDay, since) then multiset(commits)[x] else 0
  {
    if commits != [] {
      AfterExact(commits[1..], since, x);
      assert commits == [commits[0]] + commits[1..];
    }
  }

  /** The filter only removes commits; the rest keep their relative order. */
  lemma {:induction false} AfterSubsequence(commits: seq<Commit>, since: LocalDay)
    ensures IsSubsequence(After(commits, since), commits)
  {
    if commits != [] {
      AfterSubsequence(commits[1..], since);
      var kept := After(commits, since);
      if IsAfter(commits[0].authoredDay, since) {
        assert kept[0] == commits[0] && kept[1..] == After(commits[1..], since);
      }
    }
  }

  /** Filtering distributes over concatenation, so filtering after flattening equals filtering each page. */
  lemma {:induction false} AfterAppend(a: seq<Commit>, b: seq<Commit>, since: LocalDay)
    ensures After(a + b, since) == After(a, since) + After(b, since)
  {
    if a == [] {
      assert a + b == b;
    } else {
      var ab := a + b;
      assert ab[0] == a[0];
      assert ab[1..] == a[1..] + b;
      AfterAppend(a[1..], b, since);
      if IsAfter(a[0].authoredDay, since) {
        calc {
          After(ab, since);
          [a[0]] + After(a[1..] + b, since);
          [a[0]] + (After(a[1..], since) + After(b, since));
          ([a[0]] + After(a[1..], since)) + After(b, since);
        }
      }
    }
  }

  /** A filter every commit passes keeps the sequence unchanged. */
  lemma {:induction false} AfterKeepsAll(commits: seq<Commit>, since: LocalDay)
    requires forall i :: 0 <= i < |commits| ==> IsAfter(commits[i].authoredDay, since)
    ensures After(commits, since) == commits
  {
    if commits != [] {
      AfterKeepsAll(commits[1..], since);
    }
  }

  /** With every fetch succeeding, getCommitsSince is the filter applied to the whole history. */
  lemma CommitsSinceExact(h: seq<Commit>, since: LocalDay, fetchOk: nat -> bool)
    requires forall s :: fetchOk(s)
    ensures CommitsSince(h, since, fetchOk) == After(h, since)
  {
    AllFetchesOkExhausts(h, fetchOk);
    WalkCoversHistory(h, fetchOk);
  }

  /** With the cutoff LocalDate.MIN, getCommitsSince returns the whole history. */
  lemma SinceMinKeepsAll(h: seq<Commit>, fetchOk: nat -> bool)
    requires forall s :: fetchOk(s)
    ensures CommitsSince(h, LocalDateMin, fetchOk) == h
  {
    CommitsSinceExact(h, LocalDateMin, fetchOk);
    // A commit's day is bounded by what java.util.Date can express, far above LocalDate.MIN.
    assert forall i :: 0 <= i < |h| ==> IsAfter(h[i].authoredDay, LocalDateMin);
    AfterKeepsAll(h, LocalDateMin);
  }

  /** Each page filtered on its own, in page order. */
  function FilterPages(pages: seq<seq<Commit>>, since: LocalDay): (filtered: seq<seq<Commit>>)
    ensures |filtered| == |pages|
    ensures forall i :: 0 <= i < |pages| ==> filtered[i] == After(pages[i], since)
  {
    if pages == [] then [] else [After(pages[0], since)] + FilterPages(pages[1..], since)
  }

  /** Filtering the flattened pages equals flattening the pages filtered one by one. */
  lemma {:induction false} AfterFlatten(pages: seq<seq<Commit>>, since: LocalDay)
    ensures After(Flatten(pages), since) == Flatten(FilterPages(pages, since))
  {
    if pages != [] {
      AfterFlatten(pages[1..], since);
      AfterAppend(pages[0], Flatten(pages[1..]), since);
    }
  }
}
