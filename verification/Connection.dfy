/** stream/connection/main.go: a byte source at a position, opened by its first read. */
module Connections {
  import opened Base

  /** The body of an accepted response.  By the server assumption its content is the representation from
      the requested byte on, whether the status was 206 or 200. */
  class Body {
    const content: seq<byte>
    var position: nat
    var closed: bool
    ghost var answer: ReadError  // the error of the last read
    ghost var refused: bool      // a Close failed

    ghost predicate Valid() reads this { position <= |content| }

    constructor (content: seq<byte>)
      ensures Valid() && position == 0 && this.content == content && !refused
    {
      this.content, position, closed, answer, refused := content, 0, false, NoError, false;
    }

    /** io.Reader: the next bytes, and bytes or an error on every call. */
    method Read(buf: array<byte>) returns (n: nat, error: ReadError)
      requires Valid() && buf.Length > 0
      modifies this`position, this`answer, buf
      ensures answer == error
      ensures Valid() && n <= buf.Length && position == old(position) + n
      ensures buf[..n] == content[old(position)..position]
      ensures n > 0 || error != NoError
      ensures error == EndOfBody ==> position == |content|
    {
      n, error := 0, Broken;
      if * {
        n := Min(buf.Length, |content| - position);
        forall i | 0 <= i < n { buf[i] := content[position + i]; }
        position := position + n;
        error := if position == |content| then EndOfBody else NoError;
      }
      answer := error;
    }

    method Close() returns (ok: bool)
      modifies this`closed, this`refused
      ensures (ok ==> closed) && refused == !ok
    {
      closed, ok := true, true;
      if * { ok := false; }
      refused := !ok;
    }
  }

  class Connection {
    const url: string
    const remote: seq<byte>     // the file the URL names
    const startPosition: nat

    var body: Body?
    var closed: bool
    var cancelled: bool         // connection.context

    ghost var responses: seq<bool>  // for each request issued, whether a body came back
    ghost var answer: ReadError     // the error of the last read
    ghost var delivered: seq<byte>  // bytes handed to the caller, in order

    ghost function Promised(): seq<byte> { BodyFrom(remote, startPosition) }

    ghost function Footprint(): set<object>
      reads this
    {
      if body == null then {this} else {this, body}
    }

    ghost predicate Valid()
      reads this, body
    {
      && delivered <= Promised()
      && (closed ==> cancelled)
      && (body != null && !closed ==> !body.refused)
      && (body != null && closed ==> body.refused)
      && (body == null && !closed ==> delivered == [])
      && (body != null ==>
            body.Valid() && body.content == Promised() && delivered == Promised()[..body.position])
    }

    constructor (url: string, remote: seq<byte>, startPosition: nat)
      ensures Valid() && Footprint() == {this}
      ensures !closed && responses == [] && delivered == [] && answer == NoError
      ensures this.url == url && this.remote == remote && this.startPosition == startPosition
    {
      this.url, this.remote, this.startPosition := url, remote, startPosition;
      body, closed, cancelled := null, false, false;
      responses, delivered, answer := [], [], NoError;
    }

    /** NewConnection; null stands for its error. */
    static method NewConnection(url: string, remote: seq<byte>, startPosition: int) returns (c: Connection?)
      ensures c == null <==> startPosition < 0
      ensures c != null ==>
                && fresh(c) && c.Valid() && c.Footprint() == {c}
                && !c.closed && c.delivered == [] && c.url == url && c.remote == remote
                && c.startPosition == startPosition && c.answer == NoError
    {
      if startPosition < 0 {
        return null;
      }
      c := new Connection(url, remote, startPosition);
    }

    /** Reads on from where the last read stopped.  A closed connection answers (0, nil) and issues no request; an
        open one issues at most one, only while it has no body, and then passes on what its body answers. */
    method Read(buf: array<byte>) returns (n: nat, error: ReadError)
      requires Valid() && buf.Length > 0
      modifies this`body, this`responses, this`delivered, this`answer, body, buf
      ensures Valid() && fresh(Footprint() - old(Footprint()))
      ensures n <= buf.Length && delivered == old(delivered) + buf[..n] && answer == error
      ensures error == EndOfBody ==> delivered == Promised()
      ensures old(closed) ==> n == 0 && error == NoError && body == old(body) && responses == old(responses)
      ensures !old(closed) ==> n > 0 || error != NoError
      ensures !old(closed) ==> error == if body == null then Broken else body.answer
      ensures !old(closed) && old(body) != null ==> body == old(body) && responses == old(responses)
      ensures !old(closed) && old(body) == null ==>
                && |responses| == |old(responses)| + 1 && old(responses) <= responses
                && (body != null <==> responses[|old(responses)|])
      ensures closed == old(closed) && cancelled == old(cancelled)
    {
      if closed {
        answer := NoError;
        return 0, NoError;
      }
      if body == null {
        var accepted := Do();
        responses := responses + [accepted];
        if !accepted {
          answer := Broken;
          return 0, Broken;
        }
        body := new Body(BodyFrom(remote, startPosition));
      }
      ghost var position := body.position;
      n, error := body.Read(buf);
      NextOfBody(Promised(), position, n);
      delivered := delivered + buf[..n];
      answer := error;
    }

    /** client.Do and the status test: true when a response with status 206 or 200 came back. */
    method Do() returns (accepted: bool)
    {
      accepted := true;
      if * { accepted := false; }
    }

    /** Close: the first call cancels, closes the body and drops it, unless the body refuses. */
    method Close() returns (ok: bool)
      requires Valid()
      modifies this`closed, this`cancelled, this`body, body
      ensures Valid() && closed && cancelled && Footprint() <= old(Footprint())
      ensures old(closed) ==> ok && body == old(body)
      ensures !old(closed) && old(body) != null ==>
                (ok <==> !old(body).refused) && (ok ==> old(body).closed) && body == if ok then null else old(body)
      ensures !old(closed) && old(body) == null ==> ok && body == null
    {
      if closed {
        return true;
      }
      closed, cancelled := true, true;
      ok := true;
      if body != null {
        ok := body.Close();
        if !ok {
          return;
        }
        body := null;
      }
    }
  }
}
