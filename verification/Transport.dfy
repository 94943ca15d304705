/** The byte stream under a session: reads in pieces of any size, and whole-response writes. */
module Transport {
  import opened Bytes
  import opened V2gtpFraming

  /** How many bytes a read on a frame boundary aims for, the 32-bit sum included. */
  function ReadGoal(stream: seq<Byte>, len: nat): nat {
    if |stream| < HEADER_LEN || len < HEADER_LEN then len
    else
      var total := Sum32(DeclaredLen(stream));
      if total < len then total else len
  }

  /**
   * The connection behind tls_transport.c. `pending` is what the peer has sent and no read
   * has returned yet; plan(i) is how the network treats the i-th receive call: at most that
   * many bytes, or no bytes (zero: closed, negative: error).
   */
  class Connection {
    const useTls: bool
    const plan: nat -> int
    const writeOk: (seq<seq<Byte>>, seq<Byte>) -> bool
    var calls: nat
    var pending: seq<Byte>
    var written: seq<seq<Byte>>

    constructor (useTls: bool, plan: nat -> int, writeOk: (seq<seq<Byte>>, seq<Byte>) -> bool, stream: seq<Byte>)
      ensures this.useTls == useTls && this.plan == plan && this.writeOk == writeOk
      ensures calls == 0 && pending == stream && written == []
    {
      this.useTls, this.plan, this.writeOk := useTls, plan, writeOk;
      calls, pending, written := 0, stream, [];
    }

    /** The latest receive call, made since the call count was `since`, brought nothing. */
    ghost predicate Dry(since: nat)
      reads this
    {
      calls > since && (pending == [] || plan(calls - 1) <= 0)
    }

    /** recv or mbedtls_ssl_read into buf[at..], asking for at most `want` bytes. */
    method Receive(buf: array<Byte>, at: nat, want: nat) returns (ret: int)
      requires at + want <= buf.Length && want > 0
      modifies this`calls, this`pending, buf
      ensures calls == old(calls) + 1
      ensures ret > 0 ==>
                && ret <= want && ret <= |old(pending)|
                && buf[..] == old(buf[..at]) + old(pending)[..ret] + old(buf[at + ret..])
                && pending == old(pending)[ret..]
      ensures ret <= 0 ==> pending == old(pending) && buf[..] == old(buf[..])
      ensures ret <= 0 <==> plan(old(calls)) <= 0 || old(pending) == []
    {
      var r := plan(calls);
      calls := calls + 1;
      if r <= 0 || |pending| == 0 {
        return if r < 0 then -1 else 0;
      }
      var n := if r < want then r else want;
      ret := if n < |pending| then n else |pending|;
      CopyInto(buf, at, pending[..ret]);
      pending := pending[ret..];
    }

    /** One of the read loops of tls_read: receive until `goal` or `len` bytes are in buf. */
    method Fill(buf: array<Byte>, from: nat, goal: nat, len: nat) returns (total: nat, stopped: bool)
      requires from <= len <= buf.Length
      modifies this`calls, this`pending, buf
      ensures from <= total <= len && total - from <= |old(pending)|
      ensures pending == old(pending)[total - from..] && calls >= old(calls)
      ensures buf[..] == old(buf[..from]) + old(pending)[..total - from] + old(buf[total..])
      ensures !stopped ==> total >= goal || total == len
      ensures stopped ==> total < len && Dry(old(calls))
    {
      total, stopped := from, false;
      while total < goal && total < len
        invariant from <= total <= len && total - from <= |old(pending)| && calls >= old(calls)
        invariant pending == old(pending)[total - from..]
        invariant buf[..] == old(buf[..from]) + old(pending)[..total - from] + old(buf[total..])
        decreases len - total
      {
        ghost var before := buf[..];
        var ret := Receive(buf, total, len - total);
        if ret <= 0 {
          stopped := true;
          return;
        }
        Extended(old(pending), old(buf[..]), from, total, ret, before, buf[..]);
        total := total + ret;
      }
    }

    /** The plain-TCP branch of tls_read: the header first, then the rest of the message. */
    method PlainRead(buf: array<Byte>, len: nat) returns (n: int)
      requires len <= buf.Length && len < 0x8000_0000
      modifies this`calls, this`pending, buf
      ensures n == -1 || 0 <= n <= len
      ensures n == -1 ==> len > 0 && pending == old(pending) && buf[..] == old(buf[..])
      ensures n >= 0 ==>
                && n <= |old(pending)| && pending == old(pending)[n..]
                && buf[..] == old(pending)[..n] + old(buf[n..])
      ensures n < ReadGoal(old(pending), len) || n == -1 ==> Dry(old(calls))
      ensures n == 0 ==> len == 0
      ensures calls >= old(calls)
    {
      var total, stopped := Fill(buf, 0, if len < HEADER_LEN then len else HEADER_LEN, len);
      assert buf[..] == old(pending)[..total] + old(buf[total..]);
      if stopped {
        return if total > 0 then total else -1;
      }
      if total >= HEADER_LEN {
        total := ReadBody(buf, total, len, old(pending), old(buf[..]));
      }
      n := total;
    }

    /** The length of the whole message, from the header in buf. */
    method MessageTotal(buf: array<Byte>, ghost stream: seq<Byte>, ghost from: nat) returns (total: nat)
      requires HEADER_LEN <= from <= |stream| && from <= buf.Length && buf[..from] == stream[..from]
      ensures total == Sum32(DeclaredLen(stream))
    {
      HeaderRead(stream, buf[..], from);
      total := Sum32(LengthField(buf[4], buf[5], buf[6], buf[7]));
    }

    /** The second loop of the plain-TCP branch: the length is known, read up to it. */
    method ReadBody(buf: array<Byte>, from: nat, len: nat, ghost stream: seq<Byte>, ghost buf0: seq<Byte>)
      returns (total: nat)
      requires HEADER_LEN <= from <= len <= buf.Length == |buf0| && from <= |stream|
      requires pending == stream[from..] && buf[..] == stream[..from] + buf0[from..]
      modifies this`calls, this`pending, buf
      ensures from <= total <= len && total <= |stream|
      ensures pending == stream[total..] && buf[..] == stream[..total] + buf0[total..]
      ensures total < ReadGoal(stream, len) ==> Dry(old(calls))
      ensures calls >= old(calls)
    {
      var goal := MessageTotal(buf, stream, from);
      var stopped;
      total, stopped := Fill(buf, from, goal, len);
      assert buf[..] == stream[..total] + buf0[total..] && pending == stream[total..] by {
        Continued(stream, buf0, from, total - from, old(buf[..]), buf[..]);
      }
    }

    /** tls_read. */
    method Read(buf: array<Byte>, len: nat) returns (n: int)
      requires 0 < len <= buf.Length && len < 0x8000_0000
      modifies this`calls, this`pending, buf
      ensures -1 <= n <= len
      ensures n <= 0 ==> pending == old(pending) && Dry(old(calls))
      ensures n > 0 ==>
                && n <= |old(pending)| && pending == old(pending)[n..]
                && buf[..n] == old(pending)[..n]
      ensures calls >= old(calls)
    {
      if useTls {
        n := Receive(buf, 0, len);
        if n < 0 {
          n := -1;
        }
      } else {
        n := PlainRead(buf, len);
      }
    }

    /** tls_write; any non-negative result counts as the response having been sent. */
    method Write(response: seq<Byte>) returns (ok: bool)
      modifies this`written
      ensures ok == writeOk(old(written), response)
      ensures written == if ok then old(written) + [response] else old(written)
    {
      ok := writeOk(written, response);
      if ok {
        written := written + [response];
      }
    }
  }

  lemma Extended(stream: seq<Byte>, buf0: seq<Byte>, from: nat, total: nat, ret: nat,
                 before: seq<Byte>, after: seq<Byte>)
    requires from <= total && total - from + ret <= |stream| && total + ret <= |buf0|
    requires before == buf0[..from] + stream[..total - from] + buf0[total..]
    requires after == before[..total] + stream[total - from..][..ret] + before[total + ret..]
    ensures after == buf0[..from] + stream[..total - from + ret] + buf0[total + ret..]
    ensures stream[total - from..][ret..] == stream[total - from + ret..]
  {
  }

  lemma Continued(stream: seq<Byte>, buf0: seq<Byte>, from: nat, ret: nat, before: seq<Byte>, after: seq<Byte>)
    requires from + ret <= |stream| && from + ret <= |buf0|
    requires before == stream[..from] + buf0[from..]
    requires after == before[..from] + stream[from..][..ret] + before[from + ret..]
    ensures after == stream[..from + ret] + buf0[from + ret..]
    ensures stream[from..][ret..] == stream[from + ret..]
  {
  }

  lemma HeaderRead(stream: seq<Byte>, buf: seq<Byte>, total: nat)
    requires HEADER_LEN <= total <= |stream| && total <= |buf| && buf[..total] == stream[..total]
    ensures DeclaredLen(stream) == LengthField(buf[4], buf[5], buf[6], buf[7])
  {
    assert forall i :: 0 <= i < total ==> buf[..total][i] == stream[..total][i];
    assert stream[4..8] == [buf[4], buf[5], buf[6], buf[7]];
    ShiftForms(buf[4], buf[5], buf[6], buf[7]);
  }

  /** Without wrap-around the goal is the whole first message, or the whole buffer. */
  lemma GoalIsMessage(stream: seq<Byte>, len: nat)
    requires |stream| >= HEADER_LEN && len >= HEADER_LEN
    requires HEADER_LEN + DeclaredLen(stream) < 0x1_0000_0000
    ensures ReadGoal(stream, len) ==
            if HEADER_LEN + DeclaredLen(stream) < len then HEADER_LEN + DeclaredLen(stream) else len
  {
  }
}
