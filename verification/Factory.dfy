/** stream/factory/main.go: the factory that turns a node into a stream. */
module Factories {
  import opened Base
  import opened UrlCache
  import opened Streams

  /** The web as the streams see it: the file each URL names. */
  datatype Web = Web(files: map<string, seq<byte>>) {
    function FileAt(url: string): seq<byte> { if url in files then files[url] else [] }
  }

  class Factory {
    const web: Web
    var cachedItem: Item
    var closed: bool
    ghost var calls: seq<Call>  // the calls of getStreamUrl so far

    ghost predicate Valid() reads this {
      cachedItem == ItemAfter(calls) && Monotone(calls)
    }

    /** The clock has not run backwards since the last call. */
    ghost predicate InTime(c: Call) reads this {
      ComesAfter(calls, c)
    }

    constructor (web: Web)
      ensures Valid() && !closed && calls == [] && this.web == web
    {
      this.web, cachedItem, closed, calls := web, NO_ITEM, false, [];
    }

    /** getStreamUrl, against the specification whose agreement and rate UrlCache proves. */
    method GetStreamUrl(c: Call) returns (url: Option<string>)
      requires Valid() && InTime(c)
      modifies this`cachedItem, this`calls
      ensures Valid() && calls == old(calls) + [c]
      ensures url == Returned(calls, |calls| - 1)
      ensures url.None? ==> cachedItem == old(cachedItem)
    {
      assert (calls + [c])[..|calls|] == calls;
      calls := calls + [c];
      if cachedItem.url != "" && cachedItem.expiration > c.testedAt {
        return Some(cachedItem.url);
      }
      if c.reply.None? {
        return None;
      }
      cachedItem := Item(c.reply.value, c.storedAt + FIFTEEN_MINUTES);
      url := c.reply;
    }

    /** NewStream; null stands for its errors. */
    method NewStream(c: Call, size: nat) returns (stream: Stream?)
      requires Valid() && InTime(c)
      modifies this`cachedItem, this`calls
      ensures Valid()
      ensures closed ==> stream == null && calls == old(calls)
      ensures !closed ==> calls == old(calls) + [c] && (stream == null <==> Returned(calls, |calls| - 1).None?)
      ensures stream != null ==>
                && fresh(stream.Repr) && stream.Valid() && !stream.closed
                && Returned(calls, |calls| - 1) == Some(stream.url)
                && stream.remote == web.FileAt(stream.url) && stream.size == size
    {
      if closed {
        return null;
      }
      var url := GetStreamUrl(c);
      if url.None? {
        return null;
      }
      stream := new Stream(url.value, size, web.FileAt(url.value));
    }

    method Close()
      modifies this`closed
      ensures closed
    {
      closed := true;
    }
  }
}
