/** The request guard of the extraction service: it buffers the body within a bound before the
    application runs, and then replays it in chunks. */
module BodyReplay {
  import opened Sequences

  type Byte = b: int | 0 <= b < 256
  type Bytes = seq<Byte>

  datatype Message = Request(body: Bytes, moreBody: bool) | Other

  /** `Waiting`: the messages so far do not end the body. */
  datatype Buffered = Body(content: Bytes) | Disconnected | TooLarge | Waiting

  function BodyOf(messages: seq<Message>): Bytes {
    if messages == [] then []
    else BodyOf(messages[..|messages| - 1]) +
         (if messages[|messages| - 1].Request? then messages[|messages| - 1].body else [])
  }

  /** The body is the messages' bodies, one after the other. */
  lemma {:induction false} BodyIsJoined(a: seq<Message>, b: seq<Message>)
    ensures BodyOf(a + b) == BodyOf(a) + BodyOf(b)
    ensures forall body, more :: BodyOf([Request(body, more)]) == body
    ensures BodyOf([Other]) == []
  {
    forall body, more ensures BodyOf([Request(body, more)]) == body {
      assert [Request(body, more)][..0] == [];
    }
    assert [Other][..0] == [];
    if b == [] {
      assert a + b == a;
    } else {
      BodyIsJoined(a, b[..|b| - 1]);
      assert (a + b)[..|a + b| - 1] == a + b[..|b| - 1];
    }
  }

  /** The first `n` messages are pieces of one unfinished body within the limit. */
  ghost predicate Unfinished(messages: seq<Message>, n: nat, limit: nat)
    requires n <= |messages|
  {
    && (forall i :: 0 <= i < n ==> messages[i].Request? && messages[i].moreBody)
    && |BodyOf(messages[..n])| <= limit
  }

  /** The buffering loop: which message ends it, and how. */
  method BufferBody(messages: seq<Message>, limit: nat) returns (r: Buffered, n: nat)
    ensures n <= |messages| && Unfinished(messages, n, limit)
    ensures r.Waiting? <==> n == |messages|
    ensures r.Disconnected? <==> n < |messages| && messages[n].Other?
    ensures r.TooLarge? <==> n < |messages| && messages[n].Request? && |BodyOf(messages[..n + 1])| > limit
    ensures r.Body? ==> n < |messages| && messages[n].Request? && !messages[n].moreBody
    ensures r.Body? ==> r.content == BodyOf(messages[..n + 1]) && |r.content| <= limit
  {
    var received := 0;
    var buffered: Bytes := [];
    n := 0;
    while n < |messages|
      invariant 0 <= n <= |messages| && Unfinished(messages, n, limit)
      invariant buffered == BodyOf(messages[..n]) && received == |buffered|
    {
      var message := messages[n];
      assert messages[..n + 1][..n] == messages[..n];
      if message.Other? { return Disconnected, n; }
      received := received + |message.body|;
      if received > limit { return TooLarge, n; }
      buffered := buffered + message.body;
      if !message.moreBody { return Body(buffered), n; }
      n := n + 1;
    }
    return Waiting, n;
  }

  /** The spooled file after `seek(0)`. */
  class Spool {
    const content: Bytes
    var position: nat

    ghost predicate Valid()
      reads this
    {
      position <= |content|
    }

    constructor (content: Bytes)
      ensures Valid() && this.content == content && position == 0
    {
      this.content, position := content, 0;
    }

    method Read(size: nat) returns (chunk: Bytes)
      requires Valid()
      modifies this
      ensures Valid() && |chunk| <= size
      ensures content[..position] == content[..old(position)] + chunk
      ensures chunk == [] <==> size == 0 || old(position) == |content|
    {
      var end := if position + size < |content| then position + size else |content|;
      chunk := content[position..end];
      assert content[..end] == content[..position] + chunk;
      position := end;
    }

    /** `replay_receive`. */
    method ReplayReceive(size: nat) returns (message: Message)
      requires Valid() && size > 0
      modifies this
      ensures Valid() && message.Request? && |message.body| <= size
      ensures content[..position] == content[..old(position)] + message.body
      ensures message.moreBody <==> message.body != []
      ensures !message.moreBody <==> old(position) == |content|
    {
      var body := Read(size);
      message := Request(body, body != []);
    }
  }

  /** The application reading until `more_body` is false: the chunks are the received body, each
      within the chunk size, and one empty message ends them. */
  method ReplayAll(content: Bytes, size: nat) returns (messages: seq<Message>)
    requires size > 0
    ensures messages != [] && BodyOf(messages) == content
    ensures forall i :: 0 <= i < |messages| ==> messages[i].Request? && |messages[i].body| <= size
    ensures forall i :: 0 <= i < |messages| - 1 ==> messages[i].moreBody && messages[i].body != []
    ensures messages[|messages| - 1] == Request([], false)
  {
    var spool := new Spool(content);
    messages := [];
    var more := true;
    while more
      invariant fresh(spool) && spool.Valid() && spool.content == content
      invariant BodyOf(messages) == content[..spool.position]
      invariant forall i :: 0 <= i < |messages| ==> messages[i].Request? && |messages[i].body| <= size
      invariant more ==> forall i :: 0 <= i < |messages| ==> messages[i].moreBody && messages[i].body != []
      invariant !more ==> messages != [] && messages[|messages| - 1] == Request([], false)
      invariant !more ==> spool.position == |content|
      invariant !more ==> forall i :: 0 <= i < |messages| - 1 ==> messages[i].moreBody && messages[i].body != []
      decreases more, |content| - spool.position
    {
      ghost var before := spool.position;
      var message := spool.ReplayReceive(size);
      assert (messages + [message])[..|messages|] == messages;
      messages := messages + [message];
      more := message.moreBody;
    }
    assert content[..spool.position] == content;
  }

  /** The messages are what the application may rely on: one body within the limit, in chunks of at
      most `size`, closed by one empty message. */
  ghost predicate Replays(messages: seq<Message>, body: Bytes, limit: nat, size: nat) {
    && messages != [] && BodyOf(messages) == body
    && (forall i :: 0 <= i < |messages| ==> messages[i].Request? && |messages[i].body| <= size)
    && (forall i :: 0 <= i < |messages| - 1 ==> messages[i].body != [])
    && messages[|messages| - 1] == Request([], false)
    && Unfinished(messages, |messages| - 1, limit)
  }

  /** Message `n` ends a body of a finished request within the limit. */
  ghost predicate EndsBody(received: seq<Message>, n: nat, limit: nat) {
    && n < |received| && Unfinished(received, n, limit)
    && received[n].Request? && !received[n].moreBody && |BodyOf(received[..n + 1])| <= limit
  }

  /** Buffering and replaying: the application reads exactly what was received; nothing is replayed
      exactly when no message ends a body within the limit. */
  method GuardedBody(received: seq<Message>, limit: nat, size: nat) returns (replayed: Option<seq<Message>>)
    requires size > 0
    ensures replayed.Some? ==>
              exists n :: EndsBody(received, n, limit)
                          && Replays(replayed.value, BodyOf(received[..n + 1]), limit, size)
    ensures replayed.Some? <==> exists n :: EndsBody(received, n, limit)
  {
    var r, n := BufferBody(received, limit);
    if r.Body? {
      var messages := ReplayAll(r.content, size);
      BodyGrows(messages, |messages| - 1, |messages|);
      assert messages[..|messages|] == messages;
      assert EndsBody(received, n, limit) && Replays(messages, r.content, limit, size);
      return Some(messages);
    }
    forall m | EndsBody(received, m, limit) ensures false {
      if n < m {
        BodyGrows(received, n + 1, m);
      }
    }
    return None;
  }

  lemma {:induction false} BodyGrows(messages: seq<Message>, m: nat, n: nat)
    requires m <= n <= |messages|
    ensures |BodyOf(messages[..m])| <= |BodyOf(messages[..n])|
    decreases n
  {
    if m < n {
      BodyGrows(messages, m, n - 1);
      assert messages[..n][..n - 1] == messages[..n - 1];
    }
  }

  datatype Upload = Content(content: Bytes) | InputTooLarge | InputEmpty

  /** `read_bounded`: the whole upload, or the reason it was refused. */
  method ReadBounded(upload: Bytes, limit: nat, size: nat) returns (r: Upload)
    requires size > 0
    ensures r == if upload == [] then InputEmpty else if |upload| > limit then InputTooLarge else Content(upload)
  {
    var spool := new Spool(upload);
    var chunks: Bytes := [];
    var total := 0;
    var chunk := spool.Read(size);
    while chunk != []
      invariant fresh(spool) && spool.Valid() && spool.content == upload
      invariant chunks + chunk == upload[..spool.position] && total == |chunks| <= limit
      invariant chunk == [] ==> spool.position == |upload|
      decreases |upload| - |chunks|
    {
      total := total + |chunk|;
      if total > limit { return InputTooLarge; }
      chunks := chunks + chunk;
      chunk := spool.Read(size);
    }
    assert chunks == upload;
    return if total == 0 then InputEmpty else Content(chunks);
  }
}
