/** The connected socket a handler works on, and `send_all`. The kernel's
    answers are inputs: what the peer has sent, whether `recv` fails, and
    the value each successive `send` call returns. */
module Transport {

  import opened Wrappers

  class Socket {
    /** Bytes the peer has sent that no `recv` has taken yet. */
    var inbox: seq<char>
    /** Whether `recv` reports an error. */
    var recvFails: bool
    /** What the next `send` calls return, in order: a positive value is a
        count of bytes accepted, zero or a negative value a failure. */
    var sendReplies: seq<int>
    /** Every byte the peer has been sent, in order. */
    var output: seq<char>
    /** How many times `close` was called. */
    var closes: nat

    constructor (inbox: seq<char>, recvFails: bool, sendReplies: seq<int>)
      ensures this.inbox == inbox && this.recvFails == recvFails && this.sendReplies == sendReplies
      ensures output == [] && closes == 0
    {
      this.inbox := inbox;
      this.recvFails := recvFails;
      this.sendReplies := sendReplies;
      output := [];
      closes := 0;
    }

    /** `recv(fd, buf, max, 0)`: -1 on error, 0 when the peer has closed
        without sending, else up to `max` waiting bytes. */
    method Recv(max: nat) returns (n: int, data: seq<char>)
      requires max > 0
      modifies this`inbox
      ensures n <= 0 <==> Received(old(inbox), recvFails, max).None?
      ensures n <= 0 ==> data == [] && inbox == old(inbox)
      ensures n > 0 ==> n == |data| && Received(old(inbox), recvFails, max) == Some(data)
      ensures |data| <= |old(inbox)| && data == old(inbox)[..|data|] && inbox == old(inbox)[|data|..]
    {
      if recvFails {
        return -1, [];
      }
      if inbox == [] {
        return 0, [];
      }
      n := if |inbox| < max then |inbox| else max;
      data := inbox[..n];
      inbox := inbox[n..];
    }

    /** `send(fd, data, len, 0)`: takes the next reply from the queue (-1
        once the queue is empty) and, when it is positive, transmits that
        many leading bytes of `data`, never more than `|data|`. */
    method Send(data: seq<char>) returns (n: int)
      modifies this`sendReplies, this`output
      ensures n <= |data|
      ensures sendReplies == if old(sendReplies) == [] then [] else old(sendReplies)[1..]
      ensures n == if old(sendReplies) == [] then -1 else Accepted(old(sendReplies)[0], |data|)
      ensures output == old(output) + (if n > 0 then data[..n] else [])
    {
      if sendReplies == [] {
        return -1;
      }
      n := Accepted(sendReplies[0], |data|);
      sendReplies := sendReplies[1..];
      if n > 0 {
        output := output + data[..n];
      }
    }

    /** `close(fd)`. */
    method Close()
      modifies this`closes
      ensures closes == old(closes) + 1
    {
      closes := closes + 1;
    }
  }

  /** The bytes one `recv` of at most `max` bytes delivers, or nothing when
      it returns zero or a negative value. */
  function Received(inbox: seq<char>, fails: bool, max: nat): (r: Option<seq<char>>)
    requires max > 0
    ensures r.Some? ==> 0 < |r.value| <= max && |r.value| <= |inbox| && r.value == inbox[..|r.value|]
    ensures r.None? <==> fails || inbox == []
  {
    if fails || inbox == [] then None
    else if |inbox| < max then Some(inbox) else Some(inbox[..max])
  }

  /** A reply of the kernel to a request for `len` bytes, clamped to `len`. */
  function Accepted(reply: int, len: nat): int
  {
    if reply > len then len else reply
  }

  /** What a run of `send_all` does: whether it succeeded, how many bytes
      went out, and how many replies of the queue it used. */
  datatype Outcome = Outcome(ok: bool, sent: nat, used: nat)

  /** The outcome of `send_all` for `len` bytes against the reply queue
      `replies`: it sends while bytes remain, and stops with failure at the
      first reply that is not positive (or when the queue runs out). */
  function Transmit(replies: seq<int>, len: nat): (o: Outcome)
    ensures o.sent <= len
    ensures o.ok <==> o.sent == len
    ensures o.used <= |replies|
    ensures len == 0 ==> o == Outcome(true, 0, 0)
  {
    if len == 0 then Outcome(true, 0, 0)
    else if replies == [] then Outcome(false, 0, 0)
    else if replies[0] <= 0 then Outcome(false, 0, 1)
    else
      var n := Accepted(replies[0], len);
      var rest := Transmit(replies[1..], len - n);
      Outcome(rest.ok, n + rest.sent, 1 + rest.used)
  }

  /** `send_all` uses replies up to and including the first one that is
      not positive, and no further: every reply it used before the last
      was positive, and when it fails having used any reply, the last one
      it used was not positive, unless the queue ran dry. */
  lemma {:induction false} TransmitStopsAtFirstFailure(replies: seq<int>, len: nat)
    ensures var o := Transmit(replies, len);
      (forall j :: 0 <= j < o.used - 1 ==> replies[j] > 0) &&
      (o.ok && o.used > 0 ==> replies[o.used - 1] > 0) &&
      (!o.ok && o.used < |replies| ==> o.used > 0 && replies[o.used - 1] <= 0)
  {
    if len > 0 && replies != [] && replies[0] > 0 {
      var n := Accepted(replies[0], len);
      TransmitStopsAtFirstFailure(replies[1..], len - n);
    }
  }

  /** `send_all(fd, data, len)`: loops until all `len` bytes are accepted,
      giving up at the first `send` that returns zero or less. */
  method SendAll(sock: Socket, data: seq<char>) returns (ok: bool)
    modifies sock`sendReplies, sock`output
    ensures var o := Transmit(old(sock.sendReplies), |data|);
      ok == o.ok &&
      sock.output == old(sock.output) + data[..o.sent] &&
      sock.sendReplies == old(sock.sendReplies)[o.used..]
  {
    ghost var replies := sock.sendReplies;
    ghost var used := 0;
    var sent := 0;
    while sent < |data|
      invariant 0 <= sent <= |data|
      invariant 0 <= used <= |replies| && sock.sendReplies == replies[used..]
      invariant sock.output == old(sock.output) + data[..sent]
      invariant var o, rest := Transmit(replies, |data|), Transmit(sock.sendReplies, |data| - sent);
        o == Outcome(rest.ok, sent + rest.sent, used + rest.used)
      decreases |data| - sent
    {
      ghost var queued := sock.sendReplies;
      var n := sock.Send(data[sent..]);
      if n <= 0 {
        if queued != [] {
          used := used + 1;
        }
        return false;
      }
      assert data[sent..][..n] == data[sent..sent + n];
      assert data[..sent] + data[sent..sent + n] == data[..sent + n];
      sent := sent + n;
      used := used + 1;
    }
    return true;
  }
}
