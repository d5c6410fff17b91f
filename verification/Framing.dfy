/** Requests on the wire: the encoder of client.cpp, and the parser and request loop of server.cpp. */
module Framing {
  import opened Wrappers
  import opened Bytes
  import opened Seqs

  const MAX_CLIENT: nat := 4096

  type Cmd = seq<seq<Byte>>

  // The client.

  /** One argument: tag, length, bytes. */
  function Token(t: seq<Byte>): seq<Byte> { [TAG_STR] + Le32(|t|) + t }

  function Tokens(cmd: Cmd): (b: seq<Byte>) {
    if cmd == [] then [] else Tokens(cmd[..|cmd| - 1]) + Token(cmd[|cmd| - 1])
  }

  /** A request without its length header, and with it. */
  function Payload(cmd: Cmd): seq<Byte> { [TAG_ARR] + Le32(|cmd|) + Tokens(cmd) }

  function Frame(cmd: Cmd): seq<Byte> { Le32(|Payload(cmd)|) + Payload(cmd) }

  /** GET a: the length of what follows, a tag and the number of arguments, and for each a tag, its length and its bytes. */
  lemma FrameExample()
    ensures Frame([[71, 69, 84], [97]]) ==
      [19, 0, 0, 0] + ([2] + [2, 0, 0, 0] + (([1] + [3, 0, 0, 0] + [71, 69, 84]) + ([1] + [1, 0, 0, 0] + [97])))
  {
    var t, u: seq<Byte> := [71, 69, 84], [97];
    TokensOne(t);
    assert [t, u][..1] == [t];
    SmallLe32(1);
    SmallLe32(2);
    SmallLe32(3);
    SmallLe32(19);
    assert |Token(t)| == 8 && |Token(u)| == 6;
  }

  lemma SmallLe32(n: Byte)
    ensures Le32(n) == [n, 0, 0, 0]
  {
  }

  lemma TokensOne(t: seq<Byte>)
    ensures Tokens([t]) == Token(t)
  {
    assert [t][..0] == [];
  }

  lemma PayloadStep(cmd: Cmd, i: nat)
    requires i < |cmd|
    ensures Tokens(cmd[..i + 1]) == Tokens(cmd[..i]) + Token(cmd[i])
    ensures |Tokens(cmd[..i + 1])| == |Tokens(cmd[..i])| + 5 + |cmd[i]|
  {
    assert cmd[..i + 1][..i] == cmd[..i];
  }

  lemma Le32Wraps(n: nat)
    ensures Le32(n % WORD) == Le32(n)
  {
    assert n == n / WORD * WORD + n % WORD;
    Le32Shift(n % WORD, n / WORD);
  }

  lemma Le32Shift(n: nat, k: nat)
    ensures Le32(n + k * WORD) == Le32(n)
  {
    ByteShift(n, k * 0x100_0000);
    assert (n + k * WORD) / 256 == n / 256 + k * 0x100_0000;
    ByteShift(n / 256, k * 0x1_0000);
    assert (n + k * WORD) / 0x1_0000 == n / 0x1_0000 + k * 0x1_0000;
    ByteShift(n / 0x1_0000, k * 256);
    assert (n + k * WORD) / 0x100_0000 == n / 0x100_0000 + k * 256;
    ByteShift(n / 0x100_0000, k);
  }

  lemma ByteShift(n: nat, k: nat)
    ensures (n + k * 256) % 256 == n % 256
  {
  }

  lemma WordAdd(a: nat, b: nat)
    ensures (a % WORD + b) % WORD == (a + b) % WORD
  {
    assert a + b == a / WORD * WORD + (a % WORD + b);
  }

  /** The 32-bit sum of the lengths. */
  method TotalSize(query: Cmd) returns (total: nat)
    ensures total == |Payload(query)| % WORD
  {
    total := 5;
    var i := 0;
    while i < |query|
      invariant i <= |query| && total == (5 + |Tokens(query[..i])|) % WORD
    {
      PayloadStep(query, i);
      WordAdd(5 + |Tokens(query[..i])|, 5 + |query[i]|);
      total := (total + 5 + |query[i]|) % WORD;
      i := i + 1;
    }
    assert query[..|query|] == query;
  }

  /** buf_append_u8(TAG_STR), buf_append_u32(len) and buf_append of one argument. */
  method AppendToken(buf0: seq<Byte>, token: seq<Byte>) returns (buf: seq<Byte>)
    ensures buf == buf0 + Token(token)
  {
    buf := buf0 + [TAG_STR];
    buf := buf + Le32(|token|);
    buf := buf + token;
  }

  method AppendTokens(head: seq<Byte>, query: Cmd) returns (buf: seq<Byte>)
    ensures buf == head + Tokens(query)
  {
    buf := head;
    var i := 0;
    while i < |query|
      invariant i <= |query| && buf == head + Tokens(query[..i])
    {
      PayloadStep(query, i);
      Assoc(head, Tokens(query[..i]), Token(query[i]));
      buf := AppendToken(buf, query[i]);
      i := i + 1;
    }
    assert query[..|query|] == query;
  }

  /** handle_write up to the write: the message, unless its 32-bit length exceeds the limit. */
  method Encode(query: Cmd) returns (msg: Option<seq<Byte>>)
    ensures msg == if |Payload(query)| % 0x1_0000_0000 <= 4096 then Some(Frame(query)) else None
  {
    var total := TotalSize(query);
    if total > MAX_CLIENT {
      return None;
    }
    Le32Wraps(|Payload(query)|);
    var buf := AppendTokens(Le32(total) + [TAG_ARR] + Le32(|query|), query);
    Assoc4(Le32(total), [TAG_ARR], Le32(|query|), Tokens(query));
    return Some(buf);
  }

  // The server.

  /** `n` arguments from the front of a buffer; None if that means reading past its end. */
  ghost function ParseTokens(buf: seq<Byte>, n: nat): Option<Cmd> {
    if n == 0 then Some([])
    else if |buf| < 5 then None
    else
      var len := FromLe32(buf[1..5]);
      if |buf| < 5 + len then None
      else
        match ParseTokens(buf[5 + len..], n - 1)
        case None => None
        case Some(rest) => Some([buf[5..5 + len]] + rest)
  }

  ghost function Parse(buf: seq<Byte>): Option<Cmd> {
    if |buf| < 5 then None else ParseTokens(buf[5..], FromLe32(buf[1..5]))
  }

  /** `cmd` in front of what is still to be parsed. */
  ghost function Prepend(cmd: Cmd, rest: Option<Cmd>): Option<Cmd> {
    match rest case None => None case Some(r) => Some(cmd + r)
  }

  lemma ParseStep(buf: seq<Byte>, n: nat, cmd: Cmd)
    requires n > 0 && |buf| >= 5 && |buf| >= 5 + FromLe32(buf[1..5])
    ensures var len := FromLe32(buf[1..5]);
      Prepend(cmd, ParseTokens(buf, n)) == Prepend(cmd + [buf[5..5 + len]], ParseTokens(buf[5 + len..], n - 1))
  {
    var len := FromLe32(buf[1..5]);
    var rest := ParseTokens(buf[5 + len..], n - 1);
    if rest.Some? {
      assert cmd + ([buf[5..5 + len]] + rest.value) == cmd + [buf[5..5 + len]] + rest.value;
    }
  }

  /** parse_cmd; tags are read and not looked at. */
  method ParseCmd(buf: seq<Byte>) returns (cmd: Option<Cmd>)
    ensures cmd == Parse(buf)
  {
    if |buf| < 5 {
      return None;
    }
    var nstr := FromLe32(buf[1..5]);
    var p := buf[5..];
    var tokens: Cmd := [];
    PrependNothing(Parse(buf));
    while |tokens| < nstr
      invariant |tokens| <= nstr
      invariant Parse(buf) == Prepend(tokens, ParseTokens(p, nstr - |tokens|))
      decreases nstr - |tokens|
    {
      if |p| < 5 {
        return None;
      }
      var len := FromLe32(p[1..5]);
      if |p| < 5 + len {
        return None;
      }
      ParseStep(p, nstr - |tokens|, tokens);
      tokens, p := tokens + [p[5..5 + len]], p[5 + len..];
    }
    assert tokens + [] == tokens;
    return Some(tokens);
  }

  lemma PrependNothing(rest: Option<Cmd>)
    ensures Prepend([], rest) == rest
  {
    if rest.Some? {
      assert [] + rest.value == rest.value;
    }
  }

  /** One attempt at the front of a buffer. */
  datatype Attempt = NeedRead | OutOfBounds | Got(cmd: Cmd, len: nat)

  ghost function Take(buf: seq<Byte>): (a: Attempt)
    ensures a.Got? ==> 4 <= a.len <= |buf|
  {
    if |buf| < 4 then NeedRead
    else
      var total := FromLe32(buf[..4]);
      if |buf| < total + 4 then NeedRead
      else
        match Parse(buf[4..])
        case None => OutOfBounds
        case Some(cmd) => if cmd == [] then OutOfBounds else Got(cmd, 4 + total)
  }

  /** All requests that a buffer holds, what is left of it, and whether all reads were inside it. */
  datatype Drained = Drained(cmds: seq<Cmd>, rest: seq<Byte>, ok: bool)

  ghost function Drain(buf: seq<Byte>): Drained
    decreases |buf|
  {
    match Take(buf)
    case NeedRead => Drained([], buf, true)
    case OutOfBounds => Drained([], buf, false)
    case Got(cmd, n) => var d := Drain(buf[n..]); d.(cmds := [cmd] + d.cmds)
  }

  /** A connection: unread bytes and the commands dispatched so far. */
  class Conn {
    var incoming: seq<Byte>
    var dispatched: seq<Cmd>

    constructor ()
      ensures incoming == [] && dispatched == []
    {
      incoming, dispatched := [], [];
    }

    /** try_one_req; the command goes to the dispatcher, its bytes are consumed. */
    method TryOneReq() returns (more: bool, ok: bool)
      modifies this
      ensures match old(Take(incoming))
        case NeedRead => !more && ok && incoming == old(incoming) && dispatched == old(dispatched)
        case OutOfBounds => !more && !ok && incoming == old(incoming) && dispatched == old(dispatched)
        case Got(cmd, n) => more && ok && incoming == old(incoming)[n..] && dispatched == old(dispatched) + [cmd]
    {
      if |incoming| < 4 {
        return false, true;
      }
      var total := FromLe32(incoming[..4]);
      if |incoming| < total + 4 {
        return false, true;
      }
      var cmd := ParseCmd(incoming[4..]);
      if cmd == None || cmd == Some([]) {
        return false, false;
      }
      dispatched := dispatched + [cmd.value];
      incoming := incoming[4 + total..];
      return true, true;
    }

    /** handle_read after a successful read of `chunk`. */
    method HandleRead(chunk: seq<Byte>) returns (ok: bool)
      modifies this
      ensures Drained(dispatched, incoming, ok) == Feed(Drained(old(dispatched), old(incoming), true), chunk)
    {
      incoming := incoming + chunk;
      ghost var d := Drain(incoming);
      ghost var before := dispatched;
      var more := true;
      ok := true;
      while more
        invariant if more then ok && Rest(before, d, dispatched, incoming)
                  else dispatched == before + d.cmds && incoming == d.rest && ok == d.ok
        decreases |incoming|, more
      {
        RestStep(before, d, dispatched, incoming);
        more, ok := TryOneReq();
      }
    }
  }

  /** The requests still in `buf` complete those of `d`. */
  ghost predicate Rest(before: seq<Cmd>, d: Drained, done: seq<Cmd>, buf: seq<Byte>) {
    var e := Drain(buf);
    e.rest == d.rest && e.ok == d.ok && done + e.cmds == before + d.cmds
  }

  lemma RestStep(before: seq<Cmd>, d: Drained, done: seq<Cmd>, buf: seq<Byte>)
    requires Rest(before, d, done, buf)
    ensures match Take(buf)
      case Got(cmd, n) => Rest(before, d, done + [cmd], buf[n..])
      case NeedRead => done == before + d.cmds && buf == d.rest && d.ok
      case OutOfBounds => done == before + d.cmds && buf == d.rest && !d.ok
  {
    var a := Take(buf);
    if a.Got? {
      var e := Drain(buf[a.len..]);
      assert done + ([a.cmd] + e.cmds) == done + [a.cmd] + e.cmds;
    } else {
      assert done + [] == done;
    }
  }

  ghost function Feed(d: Drained, chunk: seq<Byte>): Drained {
    var n := Drain(d.rest + chunk);
    Drained(d.cmds + n.cmds, n.rest, n.ok)
  }

  // Parsing undoes encoding.

  /** A command the client sends: it has a name, and its message is within the limit. */
  ghost predicate Sendable(cmd: Cmd) {
    cmd != [] && |Payload(cmd)| <= MAX_CLIENT
  }

  lemma {:induction false} TokensCons(t: seq<Byte>, cmd: Cmd)
    ensures Tokens([t] + cmd) == Token(t) + Tokens(cmd)
  {
    if cmd == [] {
      Nil([t]);
      Nil(Token(t));
      assert [t][..0] == [];
    } else {
      var n := |cmd| - 1;
      assert ([t] + cmd)[..n + 1] == [t] + cmd[..n] && ([t] + cmd)[n + 1] == cmd[n];
      TokensCons(t, cmd[..n]);
      Assoc(Token(t), Tokens(cmd[..n]), Token(cmd[n]));
    }
  }

  lemma ParseToken(t: seq<Byte>, rest: seq<Byte>)
    requires |t| < WORD
    ensures var buf := Token(t) + rest;
      |buf| >= 5 + |t| && FromLe32(buf[1..5]) == |t| && buf[5..5 + |t|] == t && buf[5 + |t|..] == rest
  {
    var buf := Token(t) + rest;
    assert buf[1..5] == Le32(|t|);
    Le32RoundTrip(|t|);
  }

  lemma ParseTokensCons(t: seq<Byte>, rest: seq<Byte>, n: nat)
    requires |t| < WORD
    ensures ParseTokens(Token(t) + rest, n + 1) == Prepend([t], ParseTokens(rest, n))
  {
    ParseToken(t, rest);
  }

  lemma {:induction false} ParseTokensBack(cmd: Cmd, rest: seq<Byte>)
    requires |Tokens(cmd)| < WORD
    ensures ParseTokens(Tokens(cmd) + rest, |cmd|) == Some(cmd)
  {
    if cmd != [] {
      var t, more := cmd[0], cmd[1..];
      assert cmd == [t] + more;
      TokensCons(t, more);
      ParseTokensBack(more, rest);
      ParseTokensCons(t, Tokens(more) + rest, |more|);
      Assoc(Token(t), Tokens(more), rest);
    }
  }

  lemma {:induction false} TokensLong(cmd: Cmd)
    ensures |Tokens(cmd)| >= 5 * |cmd|
  {
    if cmd != [] {
      TokensLong(cmd[..|cmd| - 1]);
    }
  }

  lemma ParseBack(cmd: Cmd, rest: seq<Byte>)
    requires |Payload(cmd)| < WORD
    ensures Parse(Payload(cmd) + rest) == Some(cmd)
  {
    var buf := Payload(cmd) + rest;
    TokensLong(cmd);
    assert buf[1..5] == Le32(|cmd|);
    Le32RoundTrip(|cmd|);
    assert buf[5..] == Tokens(cmd) + rest;
    ParseTokensBack(cmd, rest);
  }

  /** A whole message at the front of a buffer is dispatched and consumed. */
  lemma TakeFrame(cmd: Cmd, rest: seq<Byte>)
    requires Sendable(cmd)
    ensures Take(Frame(cmd) + rest) == Got(cmd, |Frame(cmd)|) && (Frame(cmd) + rest)[|Frame(cmd)|..] == rest
  {
    var buf := Frame(cmd) + rest;
    assert buf[..4] == Le32(|Payload(cmd)|);
    Le32RoundTrip(|Payload(cmd)|);
    assert buf[4..] == Payload(cmd) + rest;
    ParseBack(cmd, rest);
  }

  /** Part of a message has to wait. */
  lemma TakePart(cmd: Cmd, part: seq<Byte>)
    requires Sendable(cmd) && part <= Frame(cmd) && part != Frame(cmd)
    ensures Take(part) == NeedRead
  {
    assert |part| < |Frame(cmd)|;
    if |part| >= 4 {
      assert part[..4] == Frame(cmd)[..4] == Le32(|Payload(cmd)|);
      Le32RoundTrip(|Payload(cmd)|);
    }
  }

  // Streams.

  ghost function Frames(cmds: seq<Cmd>): seq<Byte> {
    if cmds == [] then [] else Frame(cmds[0]) + Frames(cmds[1..])
  }

  ghost predicate AllSendable(cmds: seq<Cmd>) {
    forall i :: 0 <= i < |cmds| ==> Sendable(cmds[i])
  }

  /** `cmds` dispatched before what `d` says. */
  ghost function Then(cmds: seq<Cmd>, d: Drained): Drained { d.(cmds := cmds + d.cmds) }

  lemma ThenThen(a: seq<Cmd>, b: seq<Cmd>, d: Drained)
    ensures Then(a, Then(b, d)) == Then(a + b, d) && Then([], d) == d
  {
    assert a + (b + d.cmds) == a + b + d.cmds;
    assert [] + d.cmds == d.cmds;
  }

  lemma DrainOne(cmd: Cmd, rest: seq<Byte>)
    requires Sendable(cmd)
    ensures Drain(Frame(cmd) + rest) == Then([cmd], Drain(rest))
  {
    TakeFrame(cmd, rest);
  }

  lemma {:induction false} DrainFrames(cmds: seq<Cmd>, rest: seq<Byte>)
    requires AllSendable(cmds)
    ensures Drain(Frames(cmds) + rest) == Then(cmds, Drain(rest))
  {
    if cmds == [] {
      assert Frames(cmds) + rest == rest;
      ThenThen([], [], Drain(rest));
    } else {
      DrainFrames(cmds[1..], rest);
      DrainOne(cmds[0], Frames(cmds[1..]) + rest);
      Assoc(Frame(cmds[0]), Frames(cmds[1..]), rest);
      ThenThen([cmds[0]], cmds[1..], Drain(rest));
      assert [cmds[0]] + cmds[1..] == cmds;
    }
  }

  /** What has been dispatched and what waits, once the bytes `p` of a stream of messages have arrived. */
  ghost predicate InStep(cmds: seq<Cmd>, p: seq<Byte>, d: Drained) {
    d.ok && d.cmds <= cmds && Frames(d.cmds) + d.rest == p &&
    if |d.cmds| == |cmds| then d.rest == [] else d.rest <= Frame(cmds[|d.cmds|]) && d.rest != Frame(cmds[|d.cmds|])
  }

  /** Whole messages are dispatched as soon as they are there, and never anything else. */
  lemma {:induction false} DrainPrefix(cmds: seq<Cmd>, p: seq<Byte>)
    requires AllSendable(cmds) && p <= Frames(cmds)
    ensures InStep(cmds, p, Drain(p))
  {
    if cmds != [] {
      var f := Frame(cmds[0]);
      if |p| < |f| {
        assert p <= f;
        TakePart(cmds[0], p);
      } else {
        var q := p[|f|..];
        assert p == f + q && q <= Frames(cmds[1..]);
        TakeFrame(cmds[0], q);
        DrainPrefix(cmds[1..], q);
        var d := Drain(q);
        InStepCons(cmds, q, d);
      }
    }
  }

  lemma InStepCons(cmds: seq<Cmd>, q: seq<Byte>, d: Drained)
    requires cmds != [] && InStep(cmds[1..], q, d)
    ensures InStep(cmds, Frame(cmds[0]) + q, d.(cmds := [cmds[0]] + d.cmds))
  {
    var all := [cmds[0]] + d.cmds;
    assert all[1..] == d.cmds;
    assert Frame(cmds[0]) + Frames(d.cmds) + d.rest == Frame(cmds[0]) + (Frames(d.cmds) + d.rest);
    assert |d.cmds| < |cmds[1..]| ==> cmds[1..][|d.cmds|] == cmds[|all|];
  }

  ghost function FeedAll(d: Drained, chunks: seq<seq<Byte>>): Drained {
    if chunks == [] then d else Feed(FeedAll(d, chunks[..|chunks| - 1]), chunks[|chunks| - 1])
  }

  ghost function Concat(chunks: seq<seq<Byte>>): seq<Byte> {
    if chunks == [] then [] else Concat(chunks[..|chunks| - 1]) + chunks[|chunks| - 1]
  }

  lemma FeedOne(cmds: seq<Cmd>, p: seq<Byte>, c: seq<Byte>)
    requires AllSendable(cmds) && InStep(cmds, p, Drain(p))
    ensures Feed(Drain(p), c) == Drain(p + c)
  {
    var d := Drain(p);
    DrainFrames(d.cmds, d.rest + c);
    Assoc(Frames(d.cmds), d.rest, c);
  }

  /** Reading in pieces is reading at once. */
  lemma {:induction false} FeedIsDrain(cmds: seq<Cmd>, chunks: seq<seq<Byte>>)
    requires AllSendable(cmds) && Concat(chunks) <= Frames(cmds)
    ensures FeedAll(Drained([], [], true), chunks) == Drain(Concat(chunks))
  {
    if chunks != [] {
      var n := |chunks| - 1;
      var p, c := Concat(chunks[..n]), chunks[n];
      assert p <= p + c <= Frames(cmds);
      FeedIsDrain(cmds, chunks[..n]);
      DrainPrefix(cmds, p);
      FeedOne(cmds, p, c);
    }
  }

  /**
   Any split of the stream into reads: the commands dispatched are a prefix of those sent at every point, and at the
   end all of them, with nothing left over.
   */
  lemma ChunkIndependent(cmds: seq<Cmd>, chunks: seq<seq<Byte>>)
    requires AllSendable(cmds) && Concat(chunks) <= Frames(cmds)
    ensures InStep(cmds, Concat(chunks), FeedAll(Drained([], [], true), chunks))
    ensures Concat(chunks) == Frames(cmds) ==> FeedAll(Drained([], [], true), chunks) == Drained(cmds, [], true)
  {
    FeedIsDrain(cmds, chunks);
    DrainPrefix(cmds, Concat(chunks));
    if Concat(chunks) == Frames(cmds) {
      DrainFrames(cmds, []);
      assert Frames(cmds) + [] == Frames(cmds) && cmds + [] == cmds;
    }
  }

  lemma {:induction false} ConcatPrefix(chunks: seq<seq<Byte>>, i: nat)
    requires i <= |chunks|
    ensures Concat(chunks[..i]) <= Concat(chunks)
    decreases |chunks|
  {
    if i == |chunks| {
      assert chunks[..i] == chunks;
    } else {
      ConcatPrefix(chunks[..|chunks| - 1], i);
      assert chunks[..|chunks| - 1][..i] == chunks[..i];
    }
  }

  /** A connection that reads the stream chunk by chunk dispatches exactly the commands sent. */
  method Serve(chunks: seq<seq<Byte>>, ghost cmds: seq<Cmd>) returns (conn: Conn)
    requires AllSendable(cmds) && Concat(chunks) == Frames(cmds)
    ensures fresh(conn) && conn.dispatched == cmds && conn.incoming == []
  {
    conn := new Conn();
    var i := 0;
    while i < |chunks|
      invariant i <= |chunks| && fresh(conn)
      invariant Drained(conn.dispatched, conn.incoming, true) == FeedAll(Drained([], [], true), chunks[..i])
    {
      ConcatPrefix(chunks, i + 1);
      ChunkIndependent(cmds, chunks[..i + 1]);
      assert chunks[..i + 1][..i] == chunks[..i];
      var ok := conn.HandleRead(chunks[i]);
      i := i + 1;
    }
    assert chunks[..|chunks|] == chunks;
    ChunkIndependent(cmds, chunks);
  }
}
