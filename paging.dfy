/**
 * The cursor-pagination loops of the REST client.
 *
 * The server is modelled by the finite list `pages` of the answers it gives,
 * in the order the requests are sent: the first request gets `pages[0]`, the
 * second `pages[1]`, and every request past the end of the list gets an empty
 * page. A response that is not an object, or that lacks the item key, reads
 * as an empty page in the source, so it is one here. Every loop returns the
 * items it collected together with the log of requests it sent, so that what
 * it asked for (page size, cursor, page number) can be stated.
 */
module Paging {
  import opened Wrappers
  import opened Seqs
  import opened Text

  /** The largest page any of the loops asks for. */
  const PageSize: int := 100

  /** The collection a request reads. */
  datatype Endpoint =
    | GroupMessages(groupId: string)
    | DirectMessages(otherUserId: Option<string>)

  /** One GET of a message collection: its `limit` and, when sent, its `before_id`. */
  datatype Request = Request(endpoint: Endpoint, limit: int, beforeId: Option<string>)

  /** What a loop hands back: the items it collected and the requests it sent. */
  datatype Run<T, R> = Run(items: seq<T>, requests: seq<R>)

  /** The server's answer to the next request: the head of `pages`, or an empty page. */
  function Next<T>(pages: seq<seq<T>>): seq<T> {
    if pages == [] then [] else pages[0]
  }

  /** The concatenation of the pages, in order. */
  function Flatten<T>(pages: seq<seq<T>>): seq<T> {
    if pages == [] then [] else pages[0] + Flatten(pages[1..])
  }

  /**
   * An optional string parameter as it is sent: the source adds it to the
   * request only when it is truthy, so the empty string is not sent.
   */
  function Param(s: string): Option<string> {
    if s == "" then None else Some(s)
  }

  /** The cursor after a page: `before_id = messages[-1]["id"]`. */
  function LastId<T>(page: seq<T>, idOf: T -> string): Option<string>
    requires page != []
  {
    Param(idOf(page[|page| - 1]))
  }

  // ---------------------------------------------------------------------
  // Latest N messages: get_group_messages_latest and get_direct_messages
  // ---------------------------------------------------------------------

  /**
   * The latest-N loop from the point where `collected` has been gathered and
   * `before` is the cursor: ask for `min(100, remaining)` items, stop on an
   * empty page, on a page shorter than asked for, or once `limit` items are in.
   */
  function LatestFrom<T>(ep: Endpoint, pages: seq<seq<T>>, idOf: T -> string, limit: int,
                         collected: seq<T>, before: Option<string>): Run<T, Request>
    requires |collected| < limit
    decreases |pages|
  {
    var batch := Min(PageSize, limit - |collected|);
    var req := Request(ep, batch, before);
    var page := Next(pages);
    if page == [] then Run(collected, [req])
    else if limit <= |collected + page| || |page| < batch then Run(Take(collected + page, limit), [req])
    else
      var rest := LatestFrom(ep, pages[1..], idOf, limit, collected + page, LastId(page, idOf));
      Run(rest.items, [req] + rest.requests)
  }

  /** The whole latest-N call: nothing is requested when `limit <= 0`. */
  function Latest<T>(ep: Endpoint, pages: seq<seq<T>>, idOf: T -> string, limit: int): Run<T, Request> {
    if limit <= 0 then Run([], []) else LatestFrom(ep, pages, idOf, limit, [], None)
  }

  /** `reqs` followed by the rest of a run. */
  function Then<T, R>(reqs: seq<R>, r: Run<T, R>): Run<T, R> {
    Run(r.items, reqs + r.requests)
  }

  /** One round of the latest-N loop that gets an empty page ends the call. */
  lemma LatestEmptyRound<T>(ep: Endpoint, pages: seq<seq<T>>, idOf: T -> string, limit: int,
                            collected: seq<T>, before: Option<string>)
    requires |collected| < limit && Next(pages) == []
    ensures LatestFrom(ep, pages, idOf, limit, collected, before)
         == Run(collected, [Request(ep, Min(PageSize, limit - |collected|), before)])
  {
  }

  /** One round that gets a short page, or reaches `limit`, ends the call. */
  lemma LatestLastRound<T>(ep: Endpoint, pages: seq<seq<T>>, idOf: T -> string, limit: int,
                           collected: seq<T>, before: Option<string>)
    requires |collected| < limit && Next(pages) != []
    requires limit <= |collected + Next(pages)| || |Next(pages)| < Min(PageSize, limit - |collected|)
    ensures LatestFrom(ep, pages, idOf, limit, collected, before)
         == Run(Take(collected + Next(pages), limit), [Request(ep, Min(PageSize, limit - |collected|), before)])
  {
  }

  /** Any other round is followed by the next one, from the page's last id. */
  lemma LatestMoreRounds<T>(ep: Endpoint, pages: seq<seq<T>>, idOf: T -> string, limit: int,
                            collected: seq<T>, before: Option<string>)
    requires |collected| < limit && Next(pages) != []
    requires |collected + Next(pages)| < limit && |Next(pages)| >= Min(PageSize, limit - |collected|)
    ensures LatestFrom(ep, pages, idOf, limit, collected, before)
         == Then([Request(ep, Min(PageSize, limit - |collected|), before)],
                 LatestFrom(ep, pages[1..], idOf, limit, collected + Next(pages), LastId(Next(pages), idOf)))
  {
  }

  lemma ThenThen<T, R>(a: seq<R>, b: seq<R>, r: Run<T, R>)
    ensures Then(a, Then(b, r)) == Then(a + b, r)
  {
    assert a + (b + r.requests) == (a + b) + r.requests;
  }

  /**
   * get_group_messages_latest (with a GroupMessages endpoint) and
   * get_direct_messages (with a DirectMessages endpoint): the same loop.
   */
  method FetchLatest<T>(ep: Endpoint, pages: seq<seq<T>>, idOf: T -> string, limit: int)
    returns (items: seq<T>, requests: seq<Request>)
    ensures Run(items, requests) == Latest(ep, pages, idOf, limit)
  {
    if limit <= 0 {
      return [], [];
    }
    ghost var whole := Latest(ep, pages, idOf, limit);
    var collected: seq<T> := [];
    var before: Option<string> := None;
    var remaining := limit;
    var server := pages;
    requests := [];
    while remaining > 0
      invariant remaining == limit - |collected|
      invariant remaining > 0 ==> whole == Then(requests, LatestFrom(ep, server, idOf, limit, collected, before))
      invariant remaining <= 0 ==> whole == Run(Take(collected, limit), requests)
      decreases |server|
    {
      var batchLimit := Min(PageSize, remaining);
      var req := Request(ep, batchLimit, before);
      var messages := Next(server);
      ghost var sent, seen, cursor, rest := requests, collected, before, server;
      requests := requests + [req];
      if messages == [] {
        LatestEmptyRound(ep, rest, idOf, limit, seen, cursor);
        break;
      }
      server := server[1..];
      collected := collected + messages;
      remaining := limit - |collected|;
      before := LastId(messages, idOf);
      if |messages| < batchLimit || remaining <= 0 {
        LatestLastRound(ep, rest, idOf, limit, seen, cursor);
        if |messages| < batchLimit {
          break;
        }
      } else {
        LatestMoreRounds(ep, rest, idOf, limit, seen, cursor);
        ThenThen(sent, [req], LatestFrom(ep, server, idOf, limit, collected, before));
      }
    }
    items := Take(collected, limit);
  }

  // Properties of the latest-N loop

  /** The flattening of a prefix, split at its first page. */
  lemma FlattenPrefixCons<T>(pages: seq<seq<T>>, i: nat)
    requires 1 <= i <= |pages|
    ensures Flatten(pages[..i]) == pages[0] + Flatten(pages[1..][..i - 1])
  {
    assert pages[..i][1..] == pages[1..][..i - 1];
  }

  /** How many items the loop has seen before its `i`-th request. */
  function SeenBefore<T>(collected: seq<T>, pages: seq<seq<T>>, i: nat): int
    requires i <= |pages|
  {
    |collected| + |Flatten(pages[..i])|
  }

  /** After request `i` the latest-N loop went on: its page was full and the count stayed below `limit`. */
  predicate LatestWentOn<T>(collected: seq<T>, pages: seq<seq<T>>, limit: int, i: nat)
    requires i < |pages|
  {
    && pages[i] != []
    && |pages[i]| >= Min(PageSize, limit - SeenBefore(collected, pages, i))
    && SeenBefore(collected, pages, i + 1) < limit
  }

  /**
   * After request `n - 1` the latest-N loop stopped: the answer was empty
   * (possibly because the server had no more pages), short, or brought the
   * count to `limit`.
   */
  predicate LatestStopped<T>(collected: seq<T>, pages: seq<seq<T>>, limit: int, n: nat)
    requires 1 <= n <= |pages| + 1
  {
    || |pages| < n || pages[n - 1] == []
    || |pages[n - 1]| < Min(PageSize, limit - SeenBefore(collected, pages, n - 1))
    || limit <= SeenBefore(collected, pages, n)
  }

  /** The latest-N loop goes on after every request but the last, and stops after the last. */
  lemma {:induction false} LatestFromStops<T>(ep: Endpoint, pages: seq<seq<T>>, idOf: T -> string, limit: int,
                                              collected: seq<T>, before: Option<string>)
    requires |collected| < limit
    ensures var n := |LatestFrom(ep, pages, idOf, limit, collected, before).requests|;
      && 1 <= n <= |pages| + 1
      && (forall i :: 0 <= i < n - 1 ==> LatestWentOn(collected, pages, limit, i))
      && LatestStopped(collected, pages, limit, n)
    decreases |pages|
  {
    if GoesOn(pages, limit, collected) {
      LatestFromStops(ep, pages[1..], idOf, limit, collected + Next(pages), LastId(Next(pages), idOf));
      LatestStopsStep(ep, pages, idOf, limit, collected, before);
    } else if Next(pages) != [] {
      assert Flatten(pages[..1]) == Next(pages);
      assert pages[..0] == [];
    }
  }

  lemma LatestStopsStep<T>(ep: Endpoint, pages: seq<seq<T>>, idOf: T -> string, limit: int,
                           collected: seq<T>, before: Option<string>)
    requires |collected| < limit && GoesOn(pages, limit, collected)
    requires var c := collected + Next(pages);
      var n := |LatestFrom(ep, pages[1..], idOf, limit, c, LastId(Next(pages), idOf)).requests|;
      && 1 <= n <= |pages[1..]| + 1
      && (forall i :: 0 <= i < n - 1 ==> LatestWentOn(c, pages[1..], limit, i))
      && LatestStopped(c, pages[1..], limit, n)
    ensures var n := |LatestFrom(ep, pages, idOf, limit, collected, before).requests|;
      && 1 <= n <= |pages| + 1
      && (forall i :: 0 <= i < n - 1 ==> LatestWentOn(collected, pages, limit, i))
      && LatestStopped(collected, pages, limit, n)
  {
    var page := Next(pages);
    var c := collected + page;
    var b := LastId(page, idOf);
    LatestMoreRounds(ep, pages, idOf, limit, collected, before);
    var n := |LatestFrom(ep, pages, idOf, limit, collected, before).requests|;
    assert n == 1 + |LatestFrom(ep, pages[1..], idOf, limit, c, b).requests|;
    assert Flatten(pages[..1]) == page;
    assert pages[..0] == [];
    SeenShift(collected, pages);
    assert LatestWentOn(collected, pages, limit, 0);
    forall i | 1 <= i < n - 1 ensures LatestWentOn(collected, pages, limit, i) {
      WentOnShift(collected, pages, limit, i);
    }
    if n - 1 <= |pages| - 1 {
      assert pages[1..][n - 2] == pages[n - 1];
    }
  }

  /** Counting from page 1 on, after page 0 has been collected, counts the same. */
  lemma SeenShift<T>(collected: seq<T>, pages: seq<seq<T>>)
    requires pages != []
    ensures forall i :: 1 <= i <= |pages| ==>
              SeenBefore(collected, pages, i) == SeenBefore(collected + pages[0], pages[1..], i - 1)
  {
    forall i | 1 <= i <= |pages|
      ensures SeenBefore(collected, pages, i) == SeenBefore(collected + pages[0], pages[1..], i - 1)
    {
      FlattenPrefixCons(pages, i);
    }
  }

  /** Going on after page `i` is going on after page `i - 1` of the rest. */
  lemma WentOnShift<T>(collected: seq<T>, pages: seq<seq<T>>, limit: int, i: nat)
    requires 1 <= i < |pages|
    requires LatestWentOn(collected + pages[0], pages[1..], limit, i - 1)
    ensures LatestWentOn(collected, pages, limit, i)
  {
    SeenShift(collected, pages);
    assert pages[1..][i - 1] == pages[i];
  }

  /**
   * What the latest-N loop asks for: request `i` carries the endpoint, the
   * limit `min(100, remaining)` and, after the first, the cursor taken from
   * the last item of the page before it.
   */
  lemma {:induction false} LatestFromRequests<T>(ep: Endpoint, pages: seq<seq<T>>, idOf: T -> string, limit: int,
                                                 collected: seq<T>, before: Option<string>)
    requires |collected| < limit
    ensures var r := LatestFrom(ep, pages, idOf, limit, collected, before);
      && |r.requests| <= |pages| + 1
      && (forall i :: 0 <= i < |r.requests| - 1 ==> pages[i] != [])
      && forall i :: 0 <= i < |r.requests| ==>
           && r.requests[i] == Request(ep, Min(PageSize, limit - SeenBefore(collected, pages, i)),
                                       if i == 0 then before else LastId(pages[i - 1], idOf))
    decreases |pages|
  {
    if GoesOn(pages, limit, collected) {
      LatestFromRequests(ep, pages[1..], idOf, limit, collected + Next(pages), LastId(Next(pages), idOf));
      LatestRequestsStep(ep, pages, idOf, limit, collected, before);
    } else {
      assert pages[..0] == [];
    }
  }

  /** The requests of the latest-N loop are its first request followed by those of the next round. */
  lemma LatestRequestsStep<T>(ep: Endpoint, pages: seq<seq<T>>, idOf: T -> string, limit: int,
                              collected: seq<T>, before: Option<string>)
    requires |collected| < limit && GoesOn(pages, limit, collected)
    requires var c := collected + Next(pages); var b := LastId(Next(pages), idOf);
      var r := LatestFrom(ep, pages[1..], idOf, limit, c, b);
      && |r.requests| <= |pages[1..]| + 1
      && forall i :: 0 <= i < |r.requests| ==>
           && (i > 0 ==> pages[1..][i - 1] != [])
           && r.requests[i] == Request(ep, Min(PageSize, limit - SeenBefore(c, pages[1..], i)),
                                       if i == 0 then b else LastId(pages[1..][i - 1], idOf))
    ensures var r := LatestFrom(ep, pages, idOf, limit, collected, before);
      && |r.requests| <= |pages| + 1
      && forall i :: 0 <= i < |r.requests| ==>
           && (i > 0 ==> pages[i - 1] != [])
           && r.requests[i] == Request(ep, Min(PageSize, limit - SeenBefore(collected, pages, i)),
                                       if i == 0 then before else LastId(pages[i - 1], idOf))
  {
    var c := collected + Next(pages);
    var b := LastId(Next(pages), idOf);
    LatestMoreRounds(ep, pages, idOf, limit, collected, before);
    var r := LatestFrom(ep, pages, idOf, limit, collected, before);
    var rest := LatestFrom(ep, pages[1..], idOf, limit, c, b);
    assert r.requests == [Request(ep, Min(PageSize, limit - |collected|), before)] + rest.requests;
    assert pages[..0] == [];
    forall i | 1 <= i < |r.requests|
      ensures pages[i - 1] != []
      ensures r.requests[i] == Request(ep, Min(PageSize, limit - SeenBefore(collected, pages, i)),
                                       LastId(pages[i - 1], idOf))
    {
      FlattenPrefixCons(pages, i);
      assert SeenBefore(collected, pages, i) == SeenBefore(c, pages[1..], i - 1);
      assert r.requests[i] == rest.requests[i - 1];
      if i > 1 {
        assert pages[1..][i - 2] == pages[i - 1];
      }
    }
  }

  /** The latest-N loop returns the first `limit` items of the pages it fetched. */
  lemma {:induction false} LatestFromItems<T>(ep: Endpoint, pages: seq<seq<T>>, idOf: T -> string, limit: int,
                                              collected: seq<T>, before: Option<string>)
    requires |collected| < limit
    ensures var r := LatestFrom(ep, pages, idOf, limit, collected, before);
      && 1 <= |r.requests| <= |pages| + 1
      && r.items == Take(collected + Flatten(pages[..Min(|r.requests|, |pages|)]), limit)
    decreases |pages|
  {
    if GoesOn(pages, limit, collected) {
      LatestFromItems(ep, pages[1..], idOf, limit, collected + Next(pages), LastId(Next(pages), idOf));
      LatestItemsStep(ep, pages, idOf, limit, collected, before);
    } else {
      LatestItemsLast(ep, pages, idOf, limit, collected, before);
    }
  }

  /** The latest-N loop asks for another page after this one. */
  predicate GoesOn<T>(pages: seq<seq<T>>, limit: int, collected: seq<T>) {
    && Next(pages) != []
    && |collected + Next(pages)| < limit
    && |Next(pages)| >= Min(PageSize, limit - |collected|)
  }

  lemma LatestItemsLast<T>(ep: Endpoint, pages: seq<seq<T>>, idOf: T -> string, limit: int,
                           collected: seq<T>, before: Option<string>)
    requires |collected| < limit && !GoesOn(pages, limit, collected)
    ensures var r := LatestFrom(ep, pages, idOf, limit, collected, before);
      && 1 <= |r.requests| <= |pages| + 1
      && r.items == Take(collected + Flatten(pages[..Min(|r.requests|, |pages|)]), limit)
  {
    if Next(pages) == [] {
      LatestEmptyRound(ep, pages, idOf, limit, collected, before);
      if pages == [] {
        assert pages[..0] == [];
      } else {
        FlattenOne(pages);
      }
      assert collected + [] == collected;
    } else {
      LatestLastRound(ep, pages, idOf, limit, collected, before);
      FlattenOne(pages);
    }
  }

  lemma LatestItemsStep<T>(ep: Endpoint, pages: seq<seq<T>>, idOf: T -> string, limit: int,
                           collected: seq<T>, before: Option<string>)
    requires |collected| < limit && GoesOn(pages, limit, collected)
    requires var r := LatestFrom(ep, pages[1..], idOf, limit, collected + Next(pages), LastId(Next(pages), idOf));
      && 1 <= |r.requests| <= |pages[1..]| + 1
      && r.items == Take(collected + Next(pages) + Flatten(pages[1..][..Min(|r.requests|, |pages[1..]|)]), limit)
    ensures var r := LatestFrom(ep, pages, idOf, limit, collected, before);
      && 1 <= |r.requests| <= |pages| + 1
      && r.items == Take(collected + Flatten(pages[..Min(|r.requests|, |pages|)]), limit)
  {
    var page := Next(pages);
    var c := collected + page;
    LatestMoreRounds(ep, pages, idOf, limit, collected, before);
    var r := LatestFrom(ep, pages, idOf, limit, collected, before);
    var rest := LatestFrom(ep, pages[1..], idOf, limit, c, LastId(page, idOf));
    var n := |r.requests|;
    assert n == 1 + |rest.requests| && r.items == rest.items;
    var m := Min(n, |pages|);
    var k := Min(|rest.requests|, |pages[1..]|);
    assert m - 1 == k;
    var tail := Flatten(pages[1..][..k]);
    assert rest.items == Take(c + tail, limit);
    FlattenPrefixCons(pages, m);
    assert Flatten(pages[..m]) == page + tail;
    assert collected + Flatten(pages[..m]) == c + tail;
  }

  /** The latest-N loop sends at most ceil((limit - collected) / 100) requests. */
  lemma {:induction false} LatestFromCount<T>(ep: Endpoint, pages: seq<seq<T>>, idOf: T -> string, limit: int,
                                              collected: seq<T>, before: Option<string>)
    requires |collected| < limit
    ensures |LatestFrom(ep, pages, idOf, limit, collected, before).requests| <= (limit - |collected| + 99) / 100
    decreases |pages|
  {
    var page := Next(pages);
    if page != [] && |collected + page| < limit && |page| >= Min(PageSize, limit - |collected|) {
      LatestFromCount(ep, pages[1..], idOf, limit, collected + page, LastId(page, idOf));
    }
  }

  /**
   * get_group_messages_latest / get_direct_messages: nothing is requested and
   * nothing returned when `limit <= 0`. Otherwise the call returns at most
   * `limit` items, namely the first `limit` of the concatenated pages it
   * fetched, newest first. It sends between 1 and ceil(limit / 100)
   * requests: the first without a cursor, each later one with the id of the
   * last item of the page before it, each asking for min(100, remaining)
   * items, which is between 1 and 100. It goes on after every full page that
   * leaves the count below `limit` and stops after the first empty page,
   * short page, or page that brings the count to `limit`.
   */
  lemma LatestContract<T>(ep: Endpoint, pages: seq<seq<T>>, idOf: T -> string, limit: int)
    ensures var r := Latest(ep, pages, idOf, limit); var n := |r.requests|;
      && (limit <= 0 ==> r == Run([], []))
      && (limit > 0 ==>
            && |r.items| <= limit
            && 1 <= n <= |pages| + 1 && n <= (limit + 99) / 100
            && r.items == Take(Flatten(pages[..Min(n, |pages|)]), limit)
            && (forall i :: 0 <= i < n - 1 ==> pages[i] != [])
            && (forall i :: 0 <= i < n ==>
                  && r.requests[i] == Request(ep, Min(PageSize, limit - |Flatten(pages[..i])|),
                                              if i == 0 then None else LastId(pages[i - 1], idOf))
                  && 1 <= r.requests[i].limit <= PageSize)
            && (forall i :: 0 <= i < n - 1 ==> LatestWentOn([], pages, limit, i))
            && LatestStopped([], pages, limit, n))
  {
    if limit > 0 {
      LatestFromStops(ep, pages, idOf, limit, [], None);
      LatestFromItems(ep, pages, idOf, limit, [], None);
      LatestFromCount(ep, pages, idOf, limit, [], None);
      LatestRequests(ep, pages, idOf, limit);
    }
  }

  /** The requests of a latest-N call, counted from an empty start. */
  lemma LatestRequests<T>(ep: Endpoint, pages: seq<seq<T>>, idOf: T -> string, limit: int)
    requires limit > 0
    ensures var r := Latest(ep, pages, idOf, limit);
      && |r.requests| <= |pages| + 1
      && (forall i :: 0 <= i < |r.requests| - 1 ==> pages[i] != [])
      && forall i :: 0 <= i < |r.requests| ==>
           && r.requests[i] == Request(ep, Min(PageSize, limit - |Flatten(pages[..i])|),
                                       if i == 0 then None else LastId(pages[i - 1], idOf))
           && 1 <= r.requests[i].limit <= PageSize
  {
    var r := Latest(ep, pages, idOf, limit);
    assert r == LatestFrom(ep, pages, idOf, limit, [], None);
    LatestFromStops(ep, pages, idOf, limit, [], None);
    assert |r.requests| <= |pages| + 1;
    forall i | 0 <= i < |r.requests| - 1
      ensures pages[i] != []
    {
      LatestRequestAt(ep, pages, idOf, limit, i + 1);
    }
    forall i | 0 <= i < |r.requests|
      ensures r.requests[i] == Request(ep, Min(PageSize, limit - |Flatten(pages[..i])|),
                                       if i == 0 then None else LastId(pages[i - 1], idOf))
      ensures 1 <= r.requests[i].limit <= PageSize
    {
      LatestRequestAt(ep, pages, idOf, limit, i);
    }
  }

  /** Request `i` of a latest-N call, counted from an empty start. */
  lemma LatestRequestAt<T>(ep: Endpoint, pages: seq<seq<T>>, idOf: T -> string, limit: int, i: nat)
    requires limit > 0
    requires i < |Latest(ep, pages, idOf, limit).requests|
    ensures i <= |pages|
    ensures i > 0 ==> pages[i - 1] != []
    ensures Latest(ep, pages, idOf, limit).requests[i]
         == Request(ep, Min(PageSize, limit - |Flatten(pages[..i])|),
                    if i == 0 then None else LastId(pages[i - 1], idOf))
    ensures 1 <= Latest(ep, pages, idOf, limit).requests[i].limit <= PageSize
  {
    LatestFromRequests(ep, pages, idOf, limit, [], None);
    LatestRequestBelow(ep, pages, idOf, limit, i);
    assert SeenBefore([], pages, i) == |Flatten(pages[..i])|;
  }

  /** Before each of its requests the latest-N loop has seen fewer than `limit` items. */
  lemma LatestRequestBelow<T>(ep: Endpoint, pages: seq<seq<T>>, idOf: T -> string, limit: int, i: nat)
    requires limit > 0
    requires i < |LatestFrom(ep, pages, idOf, limit, [], None).requests|
    requires i <= |pages|
    ensures |Flatten(pages[..i])| < limit
  {
    LatestFromStops(ep, pages, idOf, limit, [], None);
    if i > 0 {
      assert LatestWentOn([], pages, limit, i - 1);
    } else {
      assert pages[..0] == [];
    }
  }

  // An honest server

  /** The answer to request `i`: `pages[i]`, or an empty page past the end. */
  function Served<T>(pages: seq<seq<T>>, i: nat): seq<T> {
    if i < |pages| then pages[i] else []
  }

  /** Every item has a non-empty id and no two items share one. */
  predicate DistinctIds<T>(store: seq<T>, idOf: T -> string) {
    && (forall i :: 0 <= i < |store| ==> idOf(store[i]) != "")
    && (forall i, j :: 0 <= i < j < |store| ==> idOf(store[i]) != idOf(store[j]))
  }

  /** The index just past the item whose id is `id`, or |store| when there is none. */
  function PositionAfter<T>(store: seq<T>, idOf: T -> string, id: string): (p: nat)
    ensures p <= |store|
  {
    if store == [] then 0
    else if idOf(store[0]) == id then 1
    else 1 + PositionAfter(store[1..], idOf, id)
  }

  /**
   * What a server holding `store`, newest first, answers to `req`: up to
   * `req.limit` of the items older than the one named by the cursor.
   */
  function HonestPage<T>(store: seq<T>, idOf: T -> string, req: Request): seq<T> {
    var start := match req.beforeId
                 case None => 0
                 case Some(id) => PositionAfter(store, idOf, id);
    Take(store[start..], req.limit)
  }

  /** The answers agree with an honest server on every request that was sent. */
  ghost predicate ServedHonestly<T>(pages: seq<seq<T>>, store: seq<T>, idOf: T -> string, requests: seq<Request>) {
    forall i :: 0 <= i < |requests| ==> Served(pages, i) == HonestPage(store, idOf, requests[i])
  }

  /** The cursor the client holds once it has seen the `s` newest items. */
  function CursorAt<T>(store: seq<T>, idOf: T -> string, s: nat): Option<string>
    requires s <= |store|
  {
    if s == 0 then None else Param(idOf(store[s - 1]))
  }

  lemma {:induction false} PositionAfterItem<T>(store: seq<T>, idOf: T -> string, k: nat)
    requires DistinctIds(store, idOf) && k < |store|
    ensures PositionAfter(store, idOf, idOf(store[k])) == k + 1
  {
    if k > 0 {
      assert idOf(store[0]) != idOf(store[k]);
      assert store[1..][k - 1] == store[k];
      PositionAfterItem(store[1..], idOf, k - 1);
    }
  }

  /** From the cursor after `s` items an honest server answers with the items from `s` on. */
  lemma HonestFrom<T>(store: seq<T>, idOf: T -> string, s: nat, ep: Endpoint, limit: int)
    requires DistinctIds(store, idOf) && s <= |store|
    ensures HonestPage(store, idOf, Request(ep, limit, CursorAt(store, idOf, s))) == Take(store[s..], limit)
  {
    if s > 0 {
      PositionAfterItem(store, idOf, s - 1);
    }
  }

  /** What is left of an honest exchange after its first request is again honest. */
  lemma HonestTail<T>(pages: seq<seq<T>>, store: seq<T>, idOf: T -> string, requests: seq<Request>)
    requires |pages| >= 1 && |requests| >= 1 && ServedHonestly(pages, store, idOf, requests)
    ensures ServedHonestly(pages[1..], store, idOf, requests[1..])
  {
    forall i | 0 <= i < |requests| - 1
      ensures Served(pages[1..], i) == HonestPage(store, idOf, requests[1..][i])
    {
      assert Served(pages[1..], i) == Served(pages, i + 1);
    }
  }

  /** A page of `n` items from position `s` of the store extends the prefix seen so far. */
  lemma HonestPageShape<T>(store: seq<T>, idOf: T -> string, s: nat, n: int)
    requires s <= |store| && n >= 1
    ensures var page := Take(store[s..], n);
      && |page| == Min(n, |store| - s)
      && store[..s] + page == store[..s + |page|]
      && (page != [] ==> idOf(page[|page| - 1]) == idOf(store[s + |page| - 1]))
  {
  }

  lemma {:induction false} LatestFromHonest<T>(ep: Endpoint, pages: seq<seq<T>>, idOf: T -> string, limit: int,
                                               store: seq<T>, s: nat)
    requires DistinctIds(store, idOf) && s <= |store| && s < limit
    requires ServedHonestly(pages, store, idOf,
                            LatestFrom(ep, pages, idOf, limit, store[..s], CursorAt(store, idOf, s)).requests)
    ensures LatestFrom(ep, pages, idOf, limit, store[..s], CursorAt(store, idOf, s)).items
         == store[..Min(limit, |store|)]
    decreases |pages|
  {
    var before := CursorAt(store, idOf, s);
    LatestHonestFirst(ep, pages, idOf, limit, store, s);
    if GoesOn(pages, limit, store[..s]) {
      var page := Next(pages);
      var e := s + |page|;
      var r := LatestFrom(ep, pages, idOf, limit, store[..s], before);
      var rest := LatestFrom(ep, pages[1..], idOf, limit, store[..e], CursorAt(store, idOf, e));
      assert store[..s] + page == store[..e] && LastId(page, idOf) == CursorAt(store, idOf, e);
      LatestMoreRounds(ep, pages, idOf, limit, store[..s], before);
      assert r == Then([r.requests[0]], rest);
      HonestTail(pages, store, idOf, r.requests);
      assert r.requests[1..] == rest.requests;
      LatestFromHonest(ep, pages[1..], idOf, limit, store, e);
    } else if Next(pages) == [] {
      LatestEmptyRound(ep, pages, idOf, limit, store[..s], before);
    } else {
      LatestLastRound(ep, pages, idOf, limit, store[..s], before);
      assert Take(store[..s + |Next(pages)|], limit) == store[..Min(limit, |store|)];
    }
  }

  /** The first page an honest server sends to the latest-N loop. */
  lemma LatestHonestFirst<T>(ep: Endpoint, pages: seq<seq<T>>, idOf: T -> string, limit: int,
                             store: seq<T>, s: nat)
    requires DistinctIds(store, idOf) && s <= |store| && s < limit
    requires ServedHonestly(pages, store, idOf,
                            LatestFrom(ep, pages, idOf, limit, store[..s], CursorAt(store, idOf, s)).requests)
    ensures var page := Next(pages);
      && page == Take(store[s..], Min(PageSize, limit - s))
      && |page| == Min(Min(PageSize, limit - s), |store| - s)
      && store[..s] + page == store[..s + |page|]
      && (page != [] ==> LastId(page, idOf) == CursorAt(store, idOf, s + |page|))
  {
    var before := CursorAt(store, idOf, s);
    var batch := Min(PageSize, limit - s);
    var page := Next(pages);
    var r := LatestFrom(ep, pages, idOf, limit, store[..s], before);
    assert r.requests[0] == Request(ep, batch, before);
    assert Served(pages, 0) == page;
    HonestFrom(store, idOf, s, ep, batch);
    HonestPageShape(store, idOf, s, batch);
  }

  /**
   * Against a server that answers honestly from a collection `store`,
   * newest first, with distinct ids, the latest-N call returns exactly the
   * `min(limit, |store|)` newest items, in order and without duplicate ids.
   */
  lemma LatestHonest<T>(ep: Endpoint, pages: seq<seq<T>>, idOf: T -> string, limit: int, store: seq<T>)
    requires DistinctIds(store, idOf)
    requires ServedHonestly(pages, store, idOf, Latest(ep, pages, idOf, limit).requests)
    ensures var items := Latest(ep, pages, idOf, limit).items;
      && (limit > 0 ==> items == store[..Min(limit, |store|)])
      && (limit <= |store| ==> |items| == if limit <= 0 then 0 else limit)
      && DistinctIds(items, idOf)
  {
    if limit > 0 {
      assert store[..0] == [];
      LatestFromHonest(ep, pages, idOf, limit, store, 0);
    }
  }

  // ---------------------------------------------------------------------
  // Full history: export_group_messages
  // ---------------------------------------------------------------------

  /**
   * The export loop from cursor `before`: ask for 100 items, stop after an
   * empty page or after the first page with fewer than 100 items.
   */
  function ExportFrom<T>(groupId: string, pages: seq<seq<T>>, idOf: T -> string, before: Option<string>): Run<T, Request>
    decreases |pages|
  {
    var req := Request(GroupMessages(groupId), PageSize, before);
    var messages := Next(pages);
    if messages == [] then Run([], [req])
    else if |messages| < PageSize then Run(messages, [req])
    else
      var rest := ExportFrom(groupId, pages[1..], idOf, LastId(messages, idOf));
      Run(messages + rest.items, [req] + rest.requests)
  }

  /** `r` preceded by some items and requests. */
  function After<T, R>(items: seq<T>, reqs: seq<R>, r: Run<T, R>): Run<T, R> {
    Run(items + r.items, reqs + r.requests)
  }

  lemma AfterAfter<T, R>(a: seq<T>, ra: seq<R>, b: seq<T>, rb: seq<R>, r: Run<T, R>)
    ensures After(a, ra, After(b, rb, r)) == After(a + b, ra + rb, r)
  {
    assert a + (b + r.items) == (a + b) + r.items;
    assert ra + (rb + r.requests) == (ra + rb) + r.requests;
  }

  /** One round of the export loop that gets a full page goes on from that page's last id. */
  lemma ExportMoreRounds<T>(groupId: string, pages: seq<seq<T>>, idOf: T -> string, before: Option<string>)
    requires |Next(pages)| >= PageSize
    ensures ExportFrom(groupId, pages, idOf, before)
         == After(Next(pages), [Request(GroupMessages(groupId), PageSize, before)],
                  ExportFrom(groupId, pages[1..], idOf, LastId(Next(pages), idOf)))
  {
  }

  /** export_group_messages, with every item it yields collected in order. */
  method ExportGroupMessages<T>(groupId: string, pages: seq<seq<T>>, idOf: T -> string)
    returns (items: seq<T>, requests: seq<Request>)
    ensures Run(items, requests) == ExportFrom(groupId, pages, idOf, None)
  {
    ghost var whole := ExportFrom(groupId, pages, idOf, None);
    var before: Option<string> := None;
    var server := pages;
    items, requests := [], [];
    assert whole == After(items, requests, ExportFrom(groupId, server, idOf, before));
    while true
      invariant whole == After(items, requests, ExportFrom(groupId, server, idOf, before))
      decreases |server|
    {
      var req := Request(GroupMessages(groupId), PageSize, before);
      var messages := Next(server);
      ghost var yielded, sent, rest, cursor := items, requests, server, before;
      requests := requests + [req];
      if messages == [] {
        assert ExportFrom(groupId, rest, idOf, cursor) == Run([], [req]);
        assert items + [] == items;
        break;
      }
      items := items + messages;
      if |messages| < PageSize {
        assert ExportFrom(groupId, rest, idOf, cursor) == Run(messages, [req]);
        break;
      }
      before := LastId(messages, idOf);
      server := server[1..];
      ExportMoreRounds(groupId, rest, idOf, cursor);
      AfterAfter(yielded, sent, messages, [req], ExportFrom(groupId, server, idOf, before));
    }
  }

  /**
   * export_group_messages: every request asks for 100 items of the group;
   * the first has no cursor and each later one carries the id of the last
   * item of the page before it. It goes on exactly after full pages and
   * stops right after the first empty or short page (or when the server has
   * no more pages), and yields the concatenation of the pages fetched, in
   * page order and order within each page.
   */
  lemma {:induction false} ExportContract<T>(groupId: string, pages: seq<seq<T>>, idOf: T -> string, before: Option<string>)
    ensures var r := ExportFrom(groupId, pages, idOf, before); var n := |r.requests|;
      && 1 <= n <= |pages| + 1
      && r.items == Flatten(pages[..Min(n, |pages|)])
      && (forall i :: 0 <= i < n - 1 ==> |pages[i]| >= PageSize)
      && (|pages| < n || |pages[n - 1]| < PageSize)
      && (forall i :: 0 <= i < n ==>
            r.requests[i] == Request(GroupMessages(groupId), PageSize, if i == 0 then before else LastId(pages[i - 1], idOf)))
    decreases |pages|
  {
    var messages := Next(pages);
    if messages != [] {
      assert Flatten(pages[..1]) == messages;
      if |messages| >= PageSize {
        var b := LastId(messages, idOf);
        ExportContract(groupId, pages[1..], idOf, b);
        var r := ExportFrom(groupId, pages, idOf, before);
        var rest := ExportFrom(groupId, pages[1..], idOf, b);
        var n := |r.requests|;
        FlattenPrefixCons(pages, Min(n, |pages|));
        assert r.requests == [r.requests[0]] + rest.requests;
        forall i | 1 <= i < |pages| ensures pages[1..][i - 1] == pages[i] { }
      }
    }
  }

  lemma {:induction false} ExportFromHonest<T>(groupId: string, pages: seq<seq<T>>, idOf: T -> string, store: seq<T>, s: nat)
    requires DistinctIds(store, idOf) && s <= |store|
    requires ServedHonestly(pages, store, idOf, ExportFrom(groupId, pages, idOf, CursorAt(store, idOf, s)).requests)
    ensures var r := ExportFrom(groupId, pages, idOf, CursorAt(store, idOf, s));
      && r.items == store[s..]
      && |r.requests| == (|store| - s) / 100 + 1
      && forall i :: 0 <= i < |r.requests| ==> s + 100 * i <= |store| && r.requests[i].beforeId == CursorAt(store, idOf, s + 100 * i)
    decreases |pages|
  {
    var r := ExportFrom(groupId, pages, idOf, CursorAt(store, idOf, s));
    var messages := Next(pages);
    ExportHonestFirst(groupId, pages, idOf, store, s, r.requests);
    if |messages| >= PageSize {
      var e := s + 100;
      var rest := ExportFrom(groupId, pages[1..], idOf, CursorAt(store, idOf, e));
      assert r == After(messages, [r.requests[0]], rest);
      HonestTail(pages, store, idOf, r.requests);
      ExportFromHonest(groupId, pages[1..], idOf, store, e);
      ExportHonestCursors(r.requests, s, e, store, idOf);
    }
  }

  /** The first page an honest server sends to the export loop. */
  lemma ExportHonestFirst<T>(groupId: string, pages: seq<seq<T>>, idOf: T -> string, store: seq<T>, s: nat,
                             requests: seq<Request>)
    requires DistinctIds(store, idOf) && s <= |store|
    requires requests == ExportFrom(groupId, pages, idOf, CursorAt(store, idOf, s)).requests
    requires ServedHonestly(pages, store, idOf, requests)
    ensures |requests| >= 1 && requests[0].beforeId == CursorAt(store, idOf, s)
    ensures Next(pages) == Take(store[s..], PageSize)
    ensures |Next(pages)| < PageSize ==> Next(pages) == store[s..] && |requests| == 1
    ensures |Next(pages)| >= PageSize ==>
              && s + PageSize <= |store|
              && store[s..] == Next(pages) + store[s + PageSize..]
              && LastId(Next(pages), idOf) == CursorAt(store, idOf, s + PageSize)
  {
    var messages := Next(pages);
    assert Served(pages, 0) == messages;
    HonestFrom(store, idOf, s, GroupMessages(groupId), PageSize);
    HonestPageShape(store, idOf, s, PageSize);
  }

  /** The cursor of request `i` of a tail started `100` items later is that of request `i + 1`. */
  lemma ExportHonestCursors<T>(requests: seq<Request>, s: nat, e: nat, store: seq<T>, idOf: T -> string)
    requires e == s + 100 && e <= |store| && |requests| >= 1
    requires requests[0].beforeId == CursorAt(store, idOf, s)
    requires forall i :: 0 <= i < |requests| - 1 ==>
               e + 100 * i <= |store| && requests[1..][i].beforeId == CursorAt(store, idOf, e + 100 * i)
    ensures forall i :: 0 <= i < |requests| ==>
              s + 100 * i <= |store| && requests[i].beforeId == CursorAt(store, idOf, s + 100 * i)
  {
    forall i | 1 <= i < |requests|
      ensures s + 100 * i <= |store| && requests[i].beforeId == CursorAt(store, idOf, s + 100 * i)
    {
      assert requests[i] == requests[1..][i - 1];
      assert e + 100 * (i - 1) == s + 100 * i;
    }
  }

  /**
   * Against a server that answers honestly from `store`, newest first, with
   * distinct ids, export yields the whole collection in order and sends
   * |store| / 100 + 1 requests, the `i`-th (from 1) with the id of item
   * `100 * i` as its cursor.
   */
  lemma ExportHonest<T>(groupId: string, pages: seq<seq<T>>, idOf: T -> string, store: seq<T>)
    requires DistinctIds(store, idOf)
    requires ServedHonestly(pages, store, idOf, ExportFrom(groupId, pages, idOf, None).requests)
    ensures var r := ExportFrom(groupId, pages, idOf, None);
      && r.items == store
      && |r.requests| == |store| / 100 + 1
      && r.requests[0].beforeId == None
      && forall i :: 1 <= i < |r.requests| ==> r.requests[i].beforeId == Some(idOf(store[100 * i - 1]))
  {
    ExportFromHonest(groupId, pages, idOf, store, 0);
    var r := ExportFrom(groupId, pages, idOf, None);
    forall i | 1 <= i < |r.requests| ensures r.requests[i].beforeId == Some(idOf(store[100 * i - 1])) {
      assert r.requests[i].beforeId == CursorAt(store, idOf, 0 + 100 * i);
    }
  }

  /**
   * The three-page example: a group of 237 messages is exported in three
   * requests, with cursors None, the id of message 100 and that of message 200.
   */
  lemma ExportOf237<T>(groupId: string, pages: seq<seq<T>>, idOf: T -> string, store: seq<T>)
    requires DistinctIds(store, idOf) && |store| == 237
    requires ServedHonestly(pages, store, idOf, ExportFrom(groupId, pages, idOf, None).requests)
    ensures var r := ExportFrom(groupId, pages, idOf, None);
      && |r.items| == 237
      && |r.requests| == 3
      && r.requests[0].beforeId == None
      && r.requests[1].beforeId == Some(idOf(store[99]))
      && r.requests[2].beforeId == Some(idOf(store[199]))
  {
    ExportHonest(groupId, pages, idOf, store);
  }

  // ---------------------------------------------------------------------
  // Client-side search: search_direct_messages
  // ---------------------------------------------------------------------

  /** The items whose lower-cased text contains `q`, in order. */
  function Matching<T>(items: seq<T>, textOf: T -> string, q: string): seq<T> {
    if items == [] then []
    else (if Contains(Lower(textOf(items[0])), q) then [items[0]] else []) + Matching(items[1..], textOf, q)
  }

  /**
   * The search loop with `budget` pages left and cursor `before`: fetch 100
   * direct messages, keep the matching ones, stop on an empty or short page
   * or when the budget is used up.
   */
  function SearchFrom<T>(ep: Endpoint, pages: seq<seq<T>>, idOf: T -> string, textOf: T -> string,
                         q: string, budget: int, before: Option<string>): Run<T, Request>
    decreases |pages|
  {
    if budget <= 0 then Run([], [])
    else
      var req := Request(ep, PageSize, before);
      var msgs := Next(pages);
      if msgs == [] then Run([], [req])
      else if |msgs| < PageSize then Run(Matching(msgs, textOf, q), [req])
      else
        var rest := SearchFrom(ep, pages[1..], idOf, textOf, q, budget - 1, LastId(msgs, idOf));
        Run(Matching(msgs, textOf, q) + rest.items, [req] + rest.requests)
  }

  /** The search call: the query is lower-cased, `None` read as "". */
  function Search<T>(query: string, otherUserId: string, maxPages: int, pages: seq<seq<T>>,
                     idOf: T -> string, textOf: T -> string): Run<T, Request>
  {
    SearchFrom(DirectMessages(Param(otherUserId)), pages, idOf, textOf, Lower(query), maxPages, None)
  }

  /**
   * search_direct_messages: `query` and `otherUserId` are "" where the
   * source has None; `textOf` is `(m.get("text") or "")`.
   */
  method SearchDirectMessages<T>(query: string, otherUserId: string, maxPages: int, pages: seq<seq<T>>,
                                 idOf: T -> string, textOf: T -> string)
    returns (results: seq<T>, requests: seq<Request>)
    ensures Run(results, requests) == Search(query, otherUserId, maxPages, pages, idOf, textOf)
  {
    var ep := DirectMessages(Param(otherUserId));
    var q := Lower(query);
    ghost var whole := SearchFrom(ep, pages, idOf, textOf, q, maxPages, None);
    var before: Option<string> := None;
    var count := 0;
    var server := pages;
    results, requests := [], [];
    assert whole == After(results, requests, SearchFrom(ep, server, idOf, textOf, q, maxPages - count, before));
    while count < maxPages
      invariant whole == After(results, requests, SearchFrom(ep, server, idOf, textOf, q, maxPages - count, before))
      decreases |server|
    {
      var req := Request(ep, PageSize, before);
      var msgs := Next(server);
      ghost var found, sent, rest, cursor, budget := results, requests, server, before, maxPages - count;
      requests := requests + [req];
      if msgs == [] {
        SearchRoundLast(whole, found, sent, ep, rest, idOf, textOf, q, budget, cursor);
        assert results == found + Matching(msgs, textOf, q);
        break;
      }
      var hits := MatchingLoop(msgs, textOf, q);
      results := results + hits;
      before := LastId(msgs, idOf);
      count := count + 1;
      server := server[1..];
      if |msgs| < PageSize {
        SearchRoundLast(whole, found, sent, ep, rest, idOf, textOf, q, budget, cursor);
        break;
      }
      SearchRoundMore(whole, found, sent, ep, rest, idOf, textOf, q, budget, cursor);
    }
  }

  /** A round that gets an empty or short page ends the search with that page's matches. */
  lemma SearchRoundLast<T>(whole: Run<T, Request>, found: seq<T>, sent: seq<Request>, ep: Endpoint,
                           pages: seq<seq<T>>, idOf: T -> string, textOf: T -> string,
                           q: string, budget: int, before: Option<string>)
    requires budget > 0 && |Next(pages)| < PageSize
    requires whole == After(found, sent, SearchFrom(ep, pages, idOf, textOf, q, budget, before))
    ensures whole == Run(found + Matching(Next(pages), textOf, q), sent + [Request(ep, PageSize, before)])
  {
    SearchLastRound(ep, pages, idOf, textOf, q, budget, before);
  }

  /** A round that gets a full page adds its matches and goes on from its last id. */
  lemma SearchRoundMore<T>(whole: Run<T, Request>, found: seq<T>, sent: seq<Request>, ep: Endpoint,
                           pages: seq<seq<T>>, idOf: T -> string, textOf: T -> string,
                           q: string, budget: int, before: Option<string>)
    requires budget > 0 && |Next(pages)| >= PageSize
    requires whole == After(found, sent, SearchFrom(ep, pages, idOf, textOf, q, budget, before))
    ensures whole == After(found + Matching(Next(pages), textOf, q), sent + [Request(ep, PageSize, before)],
                           SearchFrom(ep, pages[1..], idOf, textOf, q, budget - 1, LastId(Next(pages), idOf)))
  {
    SearchMoreRounds(ep, pages, idOf, textOf, q, budget, before);
    AfterAfter(found, sent, Matching(Next(pages), textOf, q), [Request(ep, PageSize, before)],
               SearchFrom(ep, pages[1..], idOf, textOf, q, budget - 1, LastId(Next(pages), idOf)));
  }

  lemma {:induction false} MatchingConcat<T>(a: seq<T>, b: seq<T>, textOf: T -> string, q: string)
    ensures Matching(a + b, textOf, q) == Matching(a, textOf, q) + Matching(b, textOf, q)
  {
    if a == [] {
      assert a + b == b;
    } else {
      assert (a + b)[0] == a[0];
      assert (a + b)[1..] == a[1..] + b;
      MatchingConcat(a[1..], b, textOf, q);
    }
  }

  /** The inner `for m in msgs` loop of the search: keep the matching messages. */
  method MatchingLoop<T>(msgs: seq<T>, textOf: T -> string, q: string) returns (hits: seq<T>)
    ensures hits == Matching(msgs, textOf, q)
  {
    hits := [];
    for i := 0 to |msgs|
      invariant hits == Matching(msgs[..i], textOf, q)
    {
      assert msgs[..i + 1] == msgs[..i] + [msgs[i]];
      MatchingConcat(msgs[..i], [msgs[i]], textOf, q);
      if Contains(Lower(textOf(msgs[i])), q) {
        hits := hits + [msgs[i]];
      }
    }
    assert msgs[..|msgs|] == msgs;
  }

  /** An item is kept exactly when its lower-cased text contains the query. */
  lemma {:induction false} MatchingMembers<T>(items: seq<T>, textOf: T -> string, q: string, x: T)
    ensures x in Matching(items, textOf, q) <==> x in items && Contains(Lower(textOf(x)), q)
  {
    if items != [] {
      MatchingMembers(items[1..], textOf, q, x);
      assert items == [items[0]] + items[1..];
    }
  }

  /** An empty query (after lower-casing) keeps every message. */
  lemma {:induction false} MatchingEmptyQuery<T>(items: seq<T>, textOf: T -> string)
    ensures Matching(items, textOf, "") == items
  {
    if items != [] {
      ContainsEmpty(Lower(textOf(items[0])));
      MatchingEmptyQuery(items[1..], textOf);
    }
  }

  /** A search round with budget left that gets a full page goes on from that page's last id. */
  lemma SearchMoreRounds<T>(ep: Endpoint, pages: seq<seq<T>>, idOf: T -> string, textOf: T -> string,
                            q: string, budget: int, before: Option<string>)
    requires budget > 0 && |Next(pages)| >= PageSize
    ensures SearchFrom(ep, pages, idOf, textOf, q, budget, before)
         == After(Matching(Next(pages), textOf, q), [Request(ep, PageSize, before)],
                  SearchFrom(ep, pages[1..], idOf, textOf, q, budget - 1, LastId(Next(pages), idOf)))
  {
  }

  /** A search round with budget left that gets an empty or short page is the last one. */
  lemma SearchLastRound<T>(ep: Endpoint, pages: seq<seq<T>>, idOf: T -> string, textOf: T -> string,
                           q: string, budget: int, before: Option<string>)
    requires budget > 0 && |Next(pages)| < PageSize
    ensures SearchFrom(ep, pages, idOf, textOf, q, budget, before)
         == Run(Matching(Next(pages), textOf, q), [Request(ep, PageSize, before)])
  {
  }

  /** How many requests the search sends, and why it stops. */
  lemma {:induction false} SearchStops<T>(ep: Endpoint, pages: seq<seq<T>>, idOf: T -> string, textOf: T -> string,
                                          q: string, budget: int, before: Option<string>)
    ensures var n := |SearchFrom(ep, pages, idOf, textOf, q, budget, before).requests|;
      && (budget <= 0 ==> n == 0)
      && (budget > 0 ==> 1 <= n <= budget)
      && n <= |pages| + 1
      && (forall i :: 0 <= i < n - 1 ==> |pages[i]| >= PageSize)
      && (n == 0 || n == budget || |pages| < n || |pages[n - 1]| < PageSize)
    decreases |pages|
  {
    if budget > 0 && |Next(pages)| >= PageSize {
      var b := LastId(Next(pages), idOf);
      SearchMoreRounds(ep, pages, idOf, textOf, q, budget, before);
      SearchStops(ep, pages[1..], idOf, textOf, q, budget - 1, b);
      var n := |SearchFrom(ep, pages, idOf, textOf, q, budget, before).requests|;
      assert n == 1 + |SearchFrom(ep, pages[1..], idOf, textOf, q, budget - 1, b).requests|;
      forall i | 1 <= i < |pages| ensures pages[1..][i - 1] == pages[i] { }
    } else if budget > 0 {
      SearchLastRound(ep, pages, idOf, textOf, q, budget, before);
    }
  }

  /**
   * Request `i` asks `ep` for `limit` items, with cursor `before` if it is
   * the first and otherwise with the id of the last item of page `i - 1`.
   */
  predicate RequestAt<T>(requests: seq<Request>, ep: Endpoint, limit: int, pages: seq<seq<T>>,
                         idOf: T -> string, before: Option<string>, i: nat)
  {
    && i < |requests|
    && (i > 0 ==> i <= |pages| && pages[i - 1] != [])
    && requests[i] == Request(ep, limit, if i == 0 then before else LastId(pages[i - 1], idOf))
  }

  /** Every request has the form RequestAt describes. */
  predicate Chained<T>(requests: seq<Request>, ep: Endpoint, limit: int, pages: seq<seq<T>>,
                       idOf: T -> string, before: Option<string>)
  {
    forall i :: 0 <= i < |requests| ==> RequestAt(requests, ep, limit, pages, idOf, before, i)
  }

  /** Prepending the first request to a chain that starts from page 0's last id gives a chain. */
  lemma ChainedCons<T>(ep: Endpoint, limit: int, pages: seq<seq<T>>, idOf: T -> string,
                       before: Option<string>, rest: seq<Request>)
    requires pages != [] && pages[0] != []
    requires Chained(rest, ep, limit, pages[1..], idOf, LastId(pages[0], idOf))
    ensures Chained([Request(ep, limit, before)] + rest, ep, limit, pages, idOf, before)
  {
    var all := [Request(ep, limit, before)] + rest;
    forall i | 0 <= i < |all| ensures RequestAt(all, ep, limit, pages, idOf, before, i) {
      if i > 0 {
        assert RequestAt(rest, ep, limit, pages[1..], idOf, LastId(pages[0], idOf), i - 1);
        assert all[i] == rest[i - 1];
        if i > 1 {
          assert pages[1..][i - 2] == pages[i - 1];
        }
      }
    }
  }

  /** Every search request asks for 100 messages, with the cursor chained from the page before. */
  lemma {:induction false} SearchRequests<T>(ep: Endpoint, pages: seq<seq<T>>, idOf: T -> string, textOf: T -> string,
                                             q: string, budget: int, before: Option<string>)
    ensures Chained(SearchFrom(ep, pages, idOf, textOf, q, budget, before).requests, ep, PageSize, pages, idOf, before)
    decreases |pages|
  {
    if budget > 0 && |Next(pages)| >= PageSize {
      SearchRequests(ep, pages[1..], idOf, textOf, q, budget - 1, LastId(Next(pages), idOf));
      SearchRequestsStep(ep, pages, idOf, textOf, q, budget, before);
    } else if budget > 0 {
      SearchLastRound(ep, pages, idOf, textOf, q, budget, before);
      assert RequestAt([Request(ep, PageSize, before)], ep, PageSize, pages, idOf, before, 0);
    }
  }

  /** A full page followed by a chained rest of the search gives a chained search. */
  lemma SearchRequestsStep<T>(ep: Endpoint, pages: seq<seq<T>>, idOf: T -> string, textOf: T -> string,
                              q: string, budget: int, before: Option<string>)
    requires budget > 0 && |Next(pages)| >= PageSize
    requires var b := LastId(Next(pages), idOf);
      Chained(SearchFrom(ep, pages[1..], idOf, textOf, q, budget - 1, b).requests, ep, PageSize, pages[1..], idOf, b)
    ensures Chained(SearchFrom(ep, pages, idOf, textOf, q, budget, before).requests, ep, PageSize, pages, idOf, before)
  {
    var b := LastId(Next(pages), idOf);
    SearchMoreRounds(ep, pages, idOf, textOf, q, budget, before);
    var rest := SearchFrom(ep, pages[1..], idOf, textOf, q, budget - 1, b);
    var r := SearchFrom(ep, pages, idOf, textOf, q, budget, before);
    assert r.requests == [Request(ep, PageSize, before)] + rest.requests;
    ChainedCons(ep, PageSize, pages, idOf, before, rest.requests);
  }

  /** The search results are the matching messages of the pages fetched, in order. */
  lemma {:induction false} SearchItems<T>(ep: Endpoint, pages: seq<seq<T>>, idOf: T -> string, textOf: T -> string,
                                          q: string, budget: int, before: Option<string>)
    ensures var r := SearchFrom(ep, pages, idOf, textOf, q, budget, before);
      r.items == Matching(Flatten(pages[..Min(|r.requests|, |pages|)]), textOf, q)
    decreases |pages|
  {
    if budget > 0 && |Next(pages)| >= PageSize {
      SearchItems(ep, pages[1..], idOf, textOf, q, budget - 1, LastId(Next(pages), idOf));
      SearchItemsStep(ep, pages, idOf, textOf, q, budget, before);
    } else {
      SearchItemsLast(ep, pages, idOf, textOf, q, budget, before);
    }
  }

  /** A search that stops at once returns the matches of the page it got, if any. */
  lemma SearchItemsLast<T>(ep: Endpoint, pages: seq<seq<T>>, idOf: T -> string, textOf: T -> string,
                           q: string, budget: int, before: Option<string>)
    requires budget <= 0 || |Next(pages)| < PageSize
    ensures var r := SearchFrom(ep, pages, idOf, textOf, q, budget, before);
      r.items == Matching(Flatten(pages[..Min(|r.requests|, |pages|)]), textOf, q)
  {
    if budget <= 0 {
      assert pages[..0] == [];
    } else {
      SearchLastRound(ep, pages, idOf, textOf, q, budget, before);
      if pages != [] {
        FlattenOne(pages);
      } else {
        assert pages[..0] == [];
      }
    }
  }

  /** A full page followed by the rest of the search: its matches come first. */
  lemma SearchItemsStep<T>(ep: Endpoint, pages: seq<seq<T>>, idOf: T -> string, textOf: T -> string,
                           q: string, budget: int, before: Option<string>)
    requires budget > 0 && |Next(pages)| >= PageSize
    requires var rest := SearchFrom(ep, pages[1..], idOf, textOf, q, budget - 1, LastId(Next(pages), idOf));
      rest.items == Matching(Flatten(pages[1..][..Min(|rest.requests|, |pages[1..]|)]), textOf, q)
    ensures var r := SearchFrom(ep, pages, idOf, textOf, q, budget, before);
      r.items == Matching(Flatten(pages[..Min(|r.requests|, |pages|)]), textOf, q)
  {
    var msgs := Next(pages);
    SearchMoreRounds(ep, pages, idOf, textOf, q, budget, before);
    var r := SearchFrom(ep, pages, idOf, textOf, q, budget, before);
    var rest := SearchFrom(ep, pages[1..], idOf, textOf, q, budget - 1, LastId(msgs, idOf));
    var n := Min(1 + |rest.requests|, |pages|);
    assert |r.requests| == 1 + |rest.requests| && n == Min(|r.requests|, |pages|);
    assert n - 1 == Min(|rest.requests|, |pages[1..]|);
    var tail := Flatten(pages[1..][..n - 1]);
    FlattenPrefixCons(pages, n);
    MatchingConcat(msgs, tail, textOf, q);
    assert r.items == Matching(msgs, textOf, q) + rest.items;
  }

  lemma FlattenOne<T>(pages: seq<seq<T>>)
    requires |pages| >= 1
    ensures Flatten(pages[..1]) == pages[0]
  {
    assert pages[..1] == [pages[0]];
    assert Flatten(pages[..1]) == pages[0] + [];
  }

  /**
   * search_direct_messages sends at most `maxPages` requests (none when it
   * is not positive), each for 100 messages with the cursor chained from the
   * last page; it goes on only after full pages and stops at the budget, an
   * empty or a short page; its results are the matching messages of the
   * pages fetched, in order.
   */
  lemma SearchContract<T>(ep: Endpoint, pages: seq<seq<T>>, idOf: T -> string, textOf: T -> string,
                          q: string, budget: int, before: Option<string>)
    ensures var r := SearchFrom(ep, pages, idOf, textOf, q, budget, before); var n := |r.requests|;
      && (budget <= 0 ==> n == 0)
      && (budget > 0 ==> 1 <= n <= budget)
      && n <= |pages| + 1
      && r.items == Matching(Flatten(pages[..Min(n, |pages|)]), textOf, q)
      && (forall i :: 0 <= i < n - 1 ==> |pages[i]| >= PageSize)
      && (n == 0 || n == budget || |pages| < n || |pages[n - 1]| < PageSize)
      && Chained(r.requests, ep, PageSize, pages, idOf, before)
  {
    SearchStops(ep, pages, idOf, textOf, q, budget, before);
    SearchRequests(ep, pages, idOf, textOf, q, budget, before);
    SearchItems(ep, pages, idOf, textOf, q, budget, before);
  }

  /**
   * The search call as the client makes it: the budget is `maxPages`, the
   * endpoint carries `otherUserId` only when it is non-empty, and an empty
   * query returns every message fetched.
   */
  lemma SearchCall<T>(query: string, otherUserId: string, maxPages: int, pages: seq<seq<T>>,
                      idOf: T -> string, textOf: T -> string)
    ensures var r := Search(query, otherUserId, maxPages, pages, idOf, textOf); var n := |r.requests|;
      && n <= (if maxPages <= 0 then 0 else maxPages)
      && (forall i :: 0 <= i < n ==> r.requests[i].endpoint == DirectMessages(if otherUserId == "" then None else Some(otherUserId)))
      && (query == "" ==> r.items == Flatten(pages[..Min(n, |pages|)]))
  {
    var q := Lower(query);
    SearchContract(DirectMessages(Param(otherUserId)), pages, idOf, textOf, q, maxPages, None);
    var r := Search(query, otherUserId, maxPages, pages, idOf, textOf);
    forall i | 0 <= i < |r.requests|
      ensures r.requests[i].endpoint == DirectMessages(if otherUserId == "" then None else Some(otherUserId))
    {
      assert RequestAt(r.requests, DirectMessages(Param(otherUserId)), PageSize, pages, idOf, None, i);
    }
    if query == "" {
      assert q == "";
      MatchingEmptyQuery(Flatten(pages[..Min(|r.requests|, |pages|)]), textOf);
    }
  }

  // ---------------------------------------------------------------------
  // Page-number traversal: list_all_groups
  // ---------------------------------------------------------------------

  /** The traversal from page number `page`: each request is a page number; an empty page ends it. */
  function GroupsFrom<T>(pages: seq<seq<T>>, page: int): Run<T, int>
    decreases |pages|
  {
    var groups := Next(pages);
    if groups == [] then Run([], [page])
    else
      var rest := GroupsFrom(pages[1..], page + 1);
      Run(groups + rest.items, [page] + rest.requests)
  }

  /** list_all_groups: `requests` are the page numbers asked for, in order. */
  method ListAllGroups<T>(pages: seq<seq<T>>) returns (groups: seq<T>, requests: seq<int>)
    ensures Run(groups, requests) == GroupsFrom(pages, 1)
  {
    var page := 1;
    var server := pages;
    groups, requests := [], [];
    while true
      invariant GroupsFrom(pages, 1) == After(groups, requests, GroupsFrom(server, page))
      decreases |server|
    {
      var got := Next(server);
      ghost var all, sent, rest, asked := groups, requests, server, page;
      requests := requests + [page];
      if got == [] {
        assert groups + [] == groups;
        break;
      }
      groups := groups + got;
      page := page + 1;
      server := server[1..];
      AfterAfter(all, sent, got, [asked], GroupsFrom(server, page));
    }
  }

  /**
   * list_all_groups asks for pages `first`, `first + 1`, ... until the first
   * empty page (or the end of what the server has), and returns the groups
   * of every non-empty page before it, in order.
   */
  lemma {:induction false} GroupsContract<T>(pages: seq<seq<T>>, first: int)
    ensures var r := GroupsFrom(pages, first); var n := |r.requests|;
      && 1 <= n <= |pages| + 1
      && (forall i :: 0 <= i < n ==> r.requests[i] == first + i)
      && (forall i :: 0 <= i < n - 1 ==> pages[i] != [])
      && (n - 1 < |pages| ==> pages[n - 1] == [])
      && r.items == Flatten(pages[..n - 1])
    decreases |pages|
  {
    if Next(pages) != [] {
      GroupsContract(pages[1..], first + 1);
      var r := GroupsFrom(pages, first);
      var rest := GroupsFrom(pages[1..], first + 1);
      var n := |r.requests|;
      assert r.requests == [first] + rest.requests;
      FlattenPrefixCons(pages, n - 1);
      forall i | 1 <= i < n ensures r.requests[i] == first + i {
        assert r.requests[i] == rest.requests[i - 1];
      }
      forall i | 1 <= i < |pages| ensures pages[1..][i - 1] == pages[i] { }
    } else {
      assert pages[..0] == [];
    }
  }
}
