/**
 * Repository discovery (main.py:50-73): listing pages 1, 2, ... are fetched in
 * order and their `(owner.login, name)` pairs gathered into a set. A page whose
 * status is not 200 aborts the program with exit code 2; the first page without
 * entries ends the loop. The server's answers are given as a sequence of pages,
 * `pages[i]` being the answer for `?page=i+1`.
 */
module Discovery {
  import opened Targets

  const StatusOk: int := 200
  const ExitApiError: int := 2

  /** One listing response: its HTTP status, its entries, and the `message` field of an error body. */
  datatype Page = Page(status: int, entries: seq<Repository>, message: string)

  /**
   * What discovery ends in: the set of repositories, or the abort with the
   * exit code and the message logged. Unfinished means the supplied pages ran
   * out before an empty one, where the program would go on asking.
   */
  datatype Outcome =
    | Complete(repos: set<Repository>)
    | Failed(exitCode: int, message: string)
    | Unfinished(repos: set<Repository>)

  /** The entries of one page, as a set. */
  function EntrySet(p: Page): set<Repository> {
    set r | r in p.entries
  }

  /** Everything the pages list, each repository once. */
  function Collected(pages: seq<Page>): set<Repository> {
    if |pages| == 0 then {}
    else Collected(pages[..|pages| - 1]) + EntrySet(pages[|pages| - 1])
  }

  /** A repository is collected exactly when some page lists it. */
  lemma {:induction false} InCollected(pages: seq<Page>, r: Repository)
    ensures r in Collected(pages) <==> exists i :: 0 <= i < |pages| && r in pages[i].entries
  {
    if |pages| > 0 {
      var front := pages[..|pages| - 1];
      InCollected(front, r);
      assert forall i :: 0 <= i < |front| ==> front[i] == pages[i];
    }
  }

  /** The loop goes on past a page exactly when it succeeded and listed something. */
  predicate Continues(p: Page) {
    p.status == StatusOk && p.entries != []
  }

  /** The index of the page at which the loop stops; `|pages|` when it never stops. */
  function StopIndex(pages: seq<Page>): (k: nat)
    ensures k <= |pages|
    ensures forall i :: 0 <= i < k ==> Continues(pages[i])
    ensures k < |pages| ==> !Continues(pages[k])
  {
    if |pages| == 0 || !Continues(pages[0]) then 0 else 1 + StopIndex(pages[1..])
  }

  /**
   * The outcome of discovery, read off the page at which the loop stops. A
   * failure carries exit code 2 and the message of a page that was not 200;
   * completion needs a page that is 200 and empty.
   */
  function Discover(pages: seq<Page>): (o: Outcome)
    ensures o.Failed? ==> o.exitCode == ExitApiError
    ensures o.Failed? ==> exists k :: 0 <= k < |pages| && pages[k].status != StatusOk && o.message == pages[k].message
    ensures o.Complete? ==> exists k :: 0 <= k < |pages| && pages[k].status == StatusOk && pages[k].entries == []
  {
    var k := StopIndex(pages);
    if k == |pages| then Unfinished(Collected(pages))
    else if pages[k].status != StatusOk then Failed(ExitApiError, pages[k].message)
    else Complete(Collected(pages[..k]))
  }

  /**
   * The discovery loop of main.py:50-73. `fetched` is the number of pages
   * requested: the loop stops right after the page that ends it.
   */
  method DiscoverRepositories(pages: seq<Page>) returns (o: Outcome, fetched: nat)
    ensures o == Discover(pages)
    ensures fetched == if StopIndex(pages) < |pages| then StopIndex(pages) + 1 else |pages|
  {
    var repositories: set<Repository> := {};
    var page := 0;
    while true
      invariant 0 <= page <= |pages|
      invariant forall i :: 0 <= i < page ==> Continues(pages[i])
      invariant repositories == Collected(pages[..page])
      decreases |pages| - page
    {
      if page == |pages| {
        assert pages[..page] == pages;
        return Unfinished(repositories), page;
      }
      var contents := pages[page];
      if contents.status != StatusOk {
        return Failed(ExitApiError, contents.message), page + 1;
      }
      ghost var before := repositories;
      var j := 0;
      while j < |contents.entries|
        invariant 0 <= j <= |contents.entries|
        invariant repositories == before + set r | r in contents.entries[..j]
      {
        assert contents.entries[..j + 1] == contents.entries[..j] + [contents.entries[j]];
        repositories := repositories + {contents.entries[j]};
        j := j + 1;
      }
      assert contents.entries[..j] == contents.entries;
      if contents.entries == [] {
        return Complete(repositories), page + 1;
      }
      assert pages[..page + 1][..page] == pages[..page];
      page := page + 1;
    }
  }

  /**
   * When every page is 200 up to the first empty one, discovery yields exactly
   * the repositories listed by the pages before it.
   */
  lemma DiscoverComplete(pages: seq<Page>, k: nat)
    requires k < |pages| && pages[k].status == StatusOk && pages[k].entries == []
    requires forall i :: 0 <= i < k ==> pages[i].status == StatusOk && pages[i].entries != []
    ensures Discover(pages).Complete?
    ensures forall r :: r in Discover(pages).repos <==>
      exists i :: 0 <= i < k && r in pages[i].entries
  {
    assert StopIndex(pages) == k;
    forall r ensures r in Discover(pages).repos <==> exists i :: 0 <= i < k && r in pages[i].entries {
      InCollected(pages[..k], r);
      assert forall i :: 0 <= i < k ==> pages[..k][i] == pages[i];
    }
  }

  /**
   * When some page up to and including the first empty one is not 200,
   * discovery aborts with exit code 2 and the message of the first such page,
   * and yields no repositories.
   */
  lemma DiscoverFails(pages: seq<Page>, e: nat, j: nat)
    requires e < |pages| && pages[e].entries == []
    requires forall i :: 0 <= i < e ==> pages[i].entries != []
    requires j <= e && pages[j].status != StatusOk
    ensures StopIndex(pages) <= j
    ensures Discover(pages) == Failed(ExitApiError, pages[StopIndex(pages)].message)
  {
    var s := StopIndex(pages);
    assert !Continues(pages[j]);
    assert s <= j;
    assert !Continues(pages[s]);
    assert pages[s].status != StatusOk by {
      if s < e {
        assert pages[s].entries != [];
      } else {
        assert s == j;
      }
    }
  }

  /** Pages after the one that stops the loop are never consulted. */
  lemma LaterPagesIgnored(pages: seq<Page>, rest: seq<Page>)
    requires StopIndex(pages) < |pages|
    ensures Discover(pages[..StopIndex(pages) + 1] + rest) == Discover(pages)
  {
    var k := StopIndex(pages);
    var q := pages[..k + 1] + rest;
    assert q[..k] == pages[..k];
    assert q[k] == pages[k];
    StopIndexAt(q, k);
  }

  /** The loop stops at the first page that does not let it continue. */
  lemma StopIndexAt(pages: seq<Page>, k: nat)
    requires k < |pages| && !Continues(pages[k])
    requires forall i :: 0 <= i < k ==> Continues(pages[i])
    ensures StopIndex(pages) == k
  {
  }

  /** The number of entries the pages list, repetitions included. */
  function EntryCount(pages: seq<Page>): nat {
    if |pages| == 0 then 0 else EntryCount(pages[..|pages| - 1]) + |pages[|pages| - 1].entries|
  }

  /** Repetitions within or across pages are collected once: never more repositories than entries. */
  lemma {:induction false} CollectedAtMostEntries(pages: seq<Page>)
    ensures |Collected(pages)| <= EntryCount(pages)
  {
    if |pages| > 0 {
      var p := pages[|pages| - 1];
      CollectedAtMostEntries(pages[..|pages| - 1]);
      EntrySetAtMostEntries(p.entries);
    }
  }

  /** A sequence has at most as many distinct elements as it has elements. */
  lemma {:induction false} EntrySetAtMostEntries(s: seq<Repository>)
    ensures |set r | r in s| <= |s|
  {
    if |s| > 0 {
      EntrySetAtMostEntries(s[1..]);
      assert (set r | r in s) == (set r | r in s[1..]) + {s[0]};
    }
  }

  /** A page listing only repositories already found adds nothing, however often they recur. */
  lemma RepeatedEntriesAddNothing(pages: seq<Page>, p: Page)
    requires forall i :: 0 <= i < |p.entries| ==> p.entries[i] in Collected(pages)
    ensures Collected(pages + [p]) == Collected(pages)
  {
    assert (pages + [p])[..|pages|] == pages;
  }

  /** One repository on page 1 and an empty page 2: discovery finds exactly that repository. */
  lemma SingleRepositoryScenario()
    ensures Discover([Page(200, [Repository("a", "r1")], ""), Page(200, [], "")])
         == Complete({Repository("a", "r1")})
  {
    var pages := [Page(200, [Repository("a", "r1")], ""), Page(200, [], "")];
    assert StopIndex(pages[1..]) == 0;
    assert pages[..1] == [pages[0]];
    assert pages[..1][..0] == [];
  }

  /** A 403 answer on page 1 aborts with exit code 2 and its message. */
  lemma BadCredentialsScenario()
    ensures Discover([Page(403, [], "Bad credentials")]) == Failed(2, "Bad credentials")
  {
  }
}
