/** The time-bounded URL cache of stream/factory/main.go:44-62, which has one entry and no key. */
module UrlCache {
  import opened Base

  const FIFTEEN_MINUTES := 15 * 60 * 1_000_000_000  // time.Duration counts nanoseconds

  datatype Item = Item(url: string, expiration: int)

  const NO_ITEM := Item("", 0)

  /** One call of getStreamUrl: the clock when the entry is tested, the file server's reply should it be
      asked (None is an error), and the clock when the reply is stored. */
  datatype Call = Call(id: nat, testedAt: int, reply: Option<string>, storedAt: int)

  predicate Hits(item: Item, testedAt: int) {
    item.url != "" && item.expiration > testedAt
  }

  function GetUrl(item: Item, c: Call): (Option<string>, Item) {
    if Hits(item, c.testedAt) then (Some(item.url), item)
    else
      match c.reply
      case None => (None, item)
      case Some(url) => (Some(url), Item(url, c.storedAt + FIFTEEN_MINUTES))
  }

  /** The entry after a factory's first calls. */
  function ItemAfter(calls: seq<Call>): Item {
    if calls == [] then NO_ITEM
    else GetUrl(ItemAfter(calls[..|calls| - 1]), calls[|calls| - 1]).1
  }

  function Returned(calls: seq<Call>, k: nat): Option<string>
    requires k < |calls|
  {
    GetUrl(ItemAfter(calls[..k]), calls[k]).0
  }

  /** Call `k` asked the file server and got a URL. */
  predicate Fetched(calls: seq<Call>, k: nat)
    requires k < |calls|
  {
    !Hits(ItemAfter(calls[..k]), calls[k].testedAt) && calls[k].reply.Some?
  }

  predicate FetchedUrl(calls: seq<Call>, k: nat)
    requires k < |calls|
  {
    Fetched(calls, k) && calls[k].reply.value != ""
  }

  /** One call at a time, under a clock that does not run backwards. */
  ghost predicate Monotone(calls: seq<Call>) {
    && (forall k | 0 <= k < |calls| :: calls[k].testedAt <= calls[k].storedAt)
    && (forall j, k | 0 <= j < k < |calls| :: calls[j].storedAt <= calls[k].testedAt)
  }

  ghost predicate ComesAfter(calls: seq<Call>, c: Call) {
    c.testedAt <= c.storedAt && forall k | 0 <= k < |calls| :: calls[k].storedAt <= c.testedAt
  }

  /** Call `j` fetched the URL that call `k` got from the entry, less than 15 minutes before. */
  ghost predicate CameFrom(calls: seq<Call>, j: nat, k: nat)
    requires k < |calls|
  {
    && j < k
    && FetchedUrl(calls, j)
    && Returned(calls, k) == calls[j].reply
    && calls[k].testedAt < calls[j].storedAt + FIFTEEN_MINUTES
  }

  /** The last of these calls that fetched. */
  function LastFetch(calls: seq<Call>): (j: Option<nat>)
    ensures j.Some? ==> j.value < |calls|
  {
    if calls == [] then None
    else if Fetched(calls, |calls| - 1) then Some(|calls| - 1)
    else LastFetch(calls[..|calls| - 1])
  }

  /** The entry is what the last fetch brought. */
  lemma {:induction false} EntryIsLastFetch(calls: seq<Call>)
    ensures match LastFetch(calls)
            case None => ItemAfter(calls) == NO_ITEM
            case Some(j) => Fetched(calls, j)
                            && ItemAfter(calls) == Item(calls[j].reply.value, calls[j].storedAt + FIFTEEN_MINUTES)
  {
    if calls != [] {
      var last := |calls| - 1;
      EntryIsLastFetch(calls[..last]);
      if !Fetched(calls, last) && LastFetch(calls[..last]).Some? {
        var j := LastFetch(calls[..last]).value;
        assert calls[..last][..j] == calls[..j];
      }
    }
  }

  /** Every URL returned was fetched by that very call, or by an earlier one less than 15 minutes ago. */
  lemma UrlIsFresh(calls: seq<Call>, k: nat)
    requires k < |calls| && Returned(calls, k).Some?
    ensures (Fetched(calls, k) && Returned(calls, k) == calls[k].reply) || exists j: nat :: CameFrom(calls, j, k)
  {
    if Hits(ItemAfter(calls[..k]), calls[k].testedAt) {
      EntryIsLastFetch(calls[..k]);
      var j := LastFetch(calls[..k]).value;
      assert calls[..k][..j] == calls[..j];
      assert CameFrom(calls, j, k);
    }
  }

  /** What the file server answered for node `id` in these calls. */
  ghost predicate ServedFor(calls: seq<Call>, id: nat, url: Option<string>) {
    exists j: nat :: j < |calls| && Fetched(calls, j) && calls[j].id == id && calls[j].reply == url
  }

  /** A factory that serves one node hands out only that node's URLs, although the entry has no key. */
  lemma OneNodeGetsItsOwnUrl(calls: seq<Call>, k: nat)
    requires k < |calls| && Returned(calls, k).Some?
    requires forall j | 0 <= j < |calls| :: calls[j].id == calls[k].id
    ensures ServedFor(calls, calls[k].id, Returned(calls, k))
  {
    UrlIsFresh(calls, k);
    if exists j: nat :: CameFrom(calls, j, k) {
      var j: nat :| CameFrom(calls, j, k);
      assert Fetched(calls, j) && calls[j].id == calls[k].id && calls[j].reply == Returned(calls, k);
    } else {
      assert Fetched(calls, k) && calls[k].reply == Returned(calls, k);
    }
  }

  /** Whatever nodes share a factory: a call gets a URL the file server answered for its own node if and only if it
      asked the file server itself, or the last call that did got a URL answered for that node too. */
  lemma OwnUrlIff(calls: seq<Call>, k: nat)
    requires k < |calls| && Returned(calls, k).Some?
    ensures ServedFor(calls[..k + 1], calls[k].id, Returned(calls, k))
            <==> Fetched(calls, k)
                 || (LastFetch(calls[..k]).Some?
                     && ServedFor(calls[..k], calls[k].id, calls[LastFetch(calls[..k]).value].reply))
  {
    EntryIsLastFetch(calls[..k]);
    ServedByOneMore(calls, k, calls[k].id, Returned(calls, k));
  }

  lemma ServedByOneMore(calls: seq<Call>, k: nat, id: nat, url: Option<string>)
    requires k < |calls|
    ensures ServedFor(calls[..k + 1], id, url)
            <==> ServedFor(calls[..k], id, url) || (Fetched(calls, k) && calls[k].id == id && calls[k].reply == url)
  {
    hide Hits, ItemAfter;
    var before, upto := calls[..k], calls[..k + 1];
    assert upto[..k] == before && upto[k] == calls[k];
    if j: nat :| j < |upto| && Fetched(upto, j) && upto[j].id == id && upto[j].reply == url {
      assert j < k ==> upto[..j] == before[..j] && Fetched(before, j);
    }
    if j: nat :| j < |before| && Fetched(before, j) && before[j].id == id && before[j].reply == url {
      assert upto[..j] == before[..j] && Fetched(upto, j);
    }
    if Fetched(calls, k) && calls[k].id == id && calls[k].reply == url {
      assert Fetched(upto, k);
    }
  }

  ghost predicate DistinctUrls(calls: seq<Call>) {
    forall i, j | 0 <= i < |calls| && 0 <= j < |calls| && calls[i].reply.Some? && calls[i].reply == calls[j].reply ::
      calls[i].id == calls[j].id
  }

  /** Where the file server never gives two nodes the same URL: if and only if the call fetched or the last call
      that did was for the same node. */
  lemma OwnUrlIffSameNode(calls: seq<Call>, k: nat)
    requires k < |calls| && Returned(calls, k).Some?
    requires DistinctUrls(calls)
    ensures ServedFor(calls[..k + 1], calls[k].id, Returned(calls, k))
            <==> Fetched(calls, k)
                 || (LastFetch(calls[..k]).Some? && calls[LastFetch(calls[..k]).value].id == calls[k].id)
  {
    OwnUrlIff(calls, k);
    var before := calls[..k];
    EntryIsLastFetch(before);
    if LastFetch(before).Some? {
      var l := LastFetch(before).value;
      assert before[l].id == calls[k].id ==> ServedFor(before, calls[k].id, before[l].reply);
    }
  }

  /** Shared by two nodes it would not: exactly when the second call misses does it get its own URL. */
  lemma SharedFactoryMixesNodes(first: Call, second: Call)
    requires first.id != second.id && first.reply.Some? && second.reply.Some? && first.reply != second.reply
    requires first.reply.value != ""
    ensures ServedFor([first, second], second.id, Returned([first, second], 1))
            <==> first.storedAt + FIFTEEN_MINUTES <= second.testedAt
  {
    var calls := [first, second];
    assert calls[..0] == [] && calls[..1] == [first];
    assert [first][..0] == [];
    assert ItemAfter([]) == NO_ITEM;
    assert ItemAfter([first]) == Item(first.reply.value, first.storedAt + FIFTEEN_MINUTES);
    if first.storedAt + FIFTEEN_MINUTES <= second.testedAt {
      assert Fetched(calls, 1) && calls[1].id == second.id && calls[1].reply == Returned(calls, 1);
    }
  }

  // ----- rate -----

  /** Fetches of a URL whose reply was stored at `from` or later. */
  function FetchesSince(calls: seq<Call>, from: int): nat {
    if calls == [] then 0
    else
      var last := |calls| - 1;
      FetchesSince(calls[..last], from) + (if FetchedUrl(calls, last) && calls[last].storedAt >= from then 1 else 0)
  }

  lemma MonotonePrefix(calls: seq<Call>, n: nat)
    requires Monotone(calls) && n <= |calls|
    ensures Monotone(calls[..n])
  {
  }

  /** The entry expires no earlier than 15 minutes per fetch counted. */
  lemma {:induction false} FetchesAreSpaced(calls: seq<Call>, from: int)
    requires Monotone(calls)
    ensures var n := FetchesSince(calls, from);
            n > 0 ==> ItemAfter(calls).expiration >= from + n * FIFTEEN_MINUTES
                      && (ItemAfter(calls).url == "" ==>
                            exists k :: 0 <= k < |calls| && calls[k].storedAt >= from + n * FIFTEEN_MINUTES)
  {
    if calls != [] {
      var last := |calls| - 1;
      MonotonePrefix(calls, last);
      FetchesAreSpaced(calls[..last], from);
      var before, c := ItemAfter(calls[..last]), calls[last];
      var n := FetchesSince(calls[..last], from);
      if Fetched(calls, last) {
        if n > 0 {
          if before.url == "" {
            var k :| 0 <= k < last && calls[..last][k].storedAt >= from + n * FIFTEEN_MINUTES;
            assert calls[k].storedAt <= c.testedAt;
          }
          assert c.testedAt >= from + n * FIFTEEN_MINUTES;
          assert calls[last].storedAt >= from + n * FIFTEEN_MINUTES;
        }
      } else {
        assert ItemAfter(calls) == before;
        if n > 0 && before.url == "" {
          var k :| 0 <= k < last && calls[..last][k].storedAt >= from + n * FIFTEEN_MINUTES;
          assert calls[k].storedAt >= from + n * FIFTEEN_MINUTES;
        }
      }
    }
  }

  /** In any span that starts at `from`, a factory fetches at most one URL plus one for every full 15 minutes. */
  lemma FetchRate(calls: seq<Call>, from: int, span: nat)
    requires Monotone(calls)
    requires forall k | 0 <= k < |calls| :: calls[k].storedAt <= from + span
    ensures FetchesSince(calls, from) <= span / FIFTEEN_MINUTES + 1
  {
    var n := FetchesSince(calls, from);
    FetchesAreSpaced(calls, from);
    if n > 0 {
      LastFetchInSpan(calls, from, span);
      Quotient(n - 1, span);
    }
  }

  lemma Quotient(n: nat, span: nat)
    requires n * FIFTEEN_MINUTES <= span
    ensures n <= span / FIFTEEN_MINUTES
  {
  }

  lemma {:induction false} LastFetchInSpan(calls: seq<Call>, from: int, span: nat)
    requires Monotone(calls) && FetchesSince(calls, from) > 0
    requires forall k | 0 <= k < |calls| :: calls[k].storedAt <= from + span
    ensures (FetchesSince(calls, from) - 1) * FIFTEEN_MINUTES <= span
  {
    var last := |calls| - 1;
    MonotonePrefix(calls, last);
    if FetchedUrl(calls, last) && calls[last].storedAt >= from {
      FetchesAreSpaced(calls[..last], from);
      var n := FetchesSince(calls[..last], from);
      if n > 0 {
        var before := ItemAfter(calls[..last]);
        if before.url == "" {
          var k :| 0 <= k < last && calls[..last][k].storedAt >= from + n * FIFTEEN_MINUTES;
          assert calls[k].storedAt <= calls[last].testedAt;
        }
        assert calls[last].testedAt >= from + n * FIFTEEN_MINUTES;
      }
    } else {
      forall k | 0 <= k < last ensures calls[..last][k].storedAt <= from + span {
        assert calls[..last][k] == calls[k];
      }
      LastFetchInSpan(calls[..last], from, span);
    }
  }
}
