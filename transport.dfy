/** What sockopt.c relies on but does not define: the Unix-domain stream
    socket and its peer, the sendn/readn transfer primitives of common.c, and
    malloc/free. The peer is a script fixed when the socket is created, so that
    every outcome of a transaction is a function of that script. */
module Transport {
  import opened SockOptTypes

  /** One block handed to sendn: a request header or a body. */
  datatype Frame = HeaderFrame(hdr: SockMsg) | BodyFrame(data: seq<byte>)

  function FrameSize(f: Frame): nat
  {
    match f
    case HeaderFrame(_) => SOCK_MSG_SIZE
    case BodyFrame(data) => |data|
  }

  /** One sendn call: the block offered and how many of its bytes the peer took. */
  datatype Transfer = Transfer(frame: Frame, accepted: nat)

  predicate Complete(t: Transfer)
  {
    t.accepted == FrameSize(t.frame)
  }

  /** What the socket will meet: whether socket() yields a descriptor, whether
      a server listens on the control path, how many bytes the server takes
      before the stream breaks, the reply header it sends (None: the stream
      ends before a whole header arrives) and the bytes that follow it. */
  datatype Endpoint = Endpoint(socketOk: bool, listening: bool, room: nat,
                               reply: Option<SockMsgReply>, body: seq<byte>)

  /** A pointer target written through by the callee: *reply_hdr, *out, *out_len,
      and the heap-allocated request header. */
  class Cell<T> {
    var value: T

    constructor (v: T)
      ensures value == v
    {
      value := v;
    }
  }

  /** A client socket descriptor together with the peer behind it. */
  class Channel {
    const fdValid: bool
    const listening: bool
    var open: bool
    var connected: bool
    var room: nat
    var reply: Option<SockMsgReply>
    var inbound: seq<byte>
    var log: seq<Transfer>

    /** socket(PF_UNIX, SOCK_STREAM, 0). */
    constructor Socket(env: Endpoint)
      ensures fdValid == env.socketOk && open == env.socketOk && !connected
      ensures listening == env.listening && room == env.room
      ensures reply == env.reply && inbound == env.body && log == []
    {
      fdValid, listening := env.socketOk, env.listening;
      open, connected := env.socketOk, false;
      room, reply, inbound, log := env.room, env.reply, env.body, [];
    }

    /** connect(): 0 when a valid descriptor reaches a listening server, else -1. */
    method Connect() returns (res: int)
      modifies this`connected
      ensures res == (if fdValid && listening then 0 else -1)
      ensures connected == (res == 0)
    {
      if fdValid && listening {
        res := 0;
        connected := true;
      } else {
        res := -1;
        connected := false;
      }
    }

    /** sendn(): the peer takes at most `room` more bytes; the result is the
        number of bytes it took, short when the stream broke. */
    method SendN(f: Frame) returns (res: int)
      requires open && connected
      modifies this`room, this`log
      ensures res == Min(FrameSize(f), old(room))
      ensures room == old(room) - res
      ensures log == old(log) + [Transfer(f, res)]
    {
      var n := Min(FrameSize(f), room);
      room := room - n;
      log := log + [Transfer(f, n)];
      res := n;
    }

    /** readn() of one reply header into *box: the whole header if the peer
        sends one, otherwise a short count with *box left as it was. */
    method ReadHeader(box: Cell<SockMsgReply>) returns (res: int)
      requires open && connected
      modifies box, this`reply
      ensures old(reply).Some? ==> res == SOCK_MSG_REPLY_SIZE && box.value == old(reply).value
      ensures old(reply).None? ==> res == 0 && box.value == old(box.value)
      ensures reply == None
    {
      if reply.Some? {
        box.value := reply.value;
        res := SOCK_MSG_REPLY_SIZE;
      } else {
        res := 0;
      }
      reply := None;
    }

    /** readn() of n body bytes into buf: as many as the peer still sends, up to n. */
    method ReadBody(buf: array<byte>, n: nat) returns (res: int)
      requires open && connected && n <= buf.Length
      modifies buf, this`inbound
      ensures res == Min(n, |old(inbound)|)
      ensures buf[..res] == old(inbound)[..res]
      ensures buf[res..] == old(buf[res..])
      ensures inbound == old(inbound)[res..]
    {
      var k := Min(n, |inbound|);
      forall i | 0 <= i < k {
        buf[i] := inbound[i];
      }
      inbound := inbound[k..];
      res := k;
    }

    /** close(). */
    method Close()
      requires open
      modifies this`open
      ensures !open
    {
      open := false;
    }
  }

  /** malloc/free. An allocation fails exactly when it asks for more than
      `avail` bytes; `live` maps each allocated, not yet freed block to its size;
      `requests` lists the size of every malloc call made, failed or not. */
  class Heap {
    var avail: nat
    var live: map<object, nat>
    ghost var requests: seq<nat>

    constructor (budget: nat)
      ensures avail == budget && live == map[] && requests == []
    {
      avail, live, requests := budget, map[], [];
    }

    /** malloc(n) for a body buffer. */
    method AllocBytes(n: nat) returns (p: array?<byte>)
      modifies this
      ensures n <= old(avail) ==>
                p != null && fresh(p) && p !in old(live) && p.Length == n
                && live == old(live)[p := n] && avail == old(avail) - n
      ensures n > old(avail) ==> p == null && live == old(live) && avail == old(avail)
      ensures requests == old(requests) + [n]
    {
      requests := requests + [n];
      if n <= avail {
        p := new byte[n];
        live := live[p := n];
        avail := avail - n;
      } else {
        p := null;
      }
    }

    /** malloc(sizeof(struct dpvs_sock_msg)) for a request header. */
    method AllocMsg() returns (p: Cell?<SockMsg>)
      modifies this
      ensures SOCK_MSG_SIZE <= old(avail) ==>
                p != null && fresh(p) && p !in old(live)
                && live == old(live)[p := SOCK_MSG_SIZE] && avail == old(avail) - SOCK_MSG_SIZE
      ensures SOCK_MSG_SIZE > old(avail) ==> p == null && live == old(live) && avail == old(avail)
      ensures requests == old(requests) + [SOCK_MSG_SIZE]
    {
      requests := requests + [SOCK_MSG_SIZE];
      if SOCK_MSG_SIZE <= avail {
        p := new Cell(ZERO_MSG);
        live := live[p := SOCK_MSG_SIZE];
        avail := avail - SOCK_MSG_SIZE;
      } else {
        p := null;
      }
    }

    /** free(p). */
    method Free(p: object)
      requires p in live
      modifies this
      ensures live == old(live) - {p}
      ensures avail == old(avail) + old(live[p])
      ensures requests == old(requests)
    {
      avail := avail + live[p];
      live := live - {p};
    }
  }

  /** Freeing a block right after allocating it restores the set of live blocks. */
  lemma AllocThenFree(live: map<object, nat>, p: object, n: nat)
    requires p !in live
    ensures live[p := n] - {p} == live
  {
  }
}
