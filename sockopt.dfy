/** The four functions of sockopt.c, step by step over the socket, the heap
    and the caller's pointer slots. Each is proved to leave exactly the
    outcome its specification function in SockOptSpec describes. */
module SockOpt {
  import opened SockOptTypes
  import opened Transport
  import opened SockOptSpec

  /** sockopt_msg_send: the header, then (for a non-null body of non-zero
      length) the body. A null header pointer is `hdr == null`, a null body
      pointer `data == None`. */
  method MsgSend(ch: Channel, hdr: Cell?<SockMsg>, data: Option<seq<byte>>, dataLen: int) returns (res: int)
    requires ch.open && ch.connected
    requires data.Some? ==> 0 <= dataLen <= |data.value|
    modifies ch`room, ch`log
    ensures var o := SendSpec(if hdr == null then None else Some(hdr.value), data, dataLen, old(ch.room));
            res == o.ret && ch.log == old(ch.log) + o.log && ch.room == o.room
  {
    if hdr == null {
      return -ESOCKOPT_INVAL;
    }
    var len := SOCK_MSG_SIZE;
    res := ch.SendN(HeaderFrame(hdr.value));
    if len != res {
      return -ESOCKOPT_IO;
    }
    if data.Some? && dataLen != 0 {
      res := ch.SendN(BodyFrame(data.value[..dataLen]));
      if dataLen != res {
        return -ESOCKOPT_IO;
      }
    }
    return ESOCKOPT_OK;
  }

  /** sockopt_msg_recv: null pointers are `replyHdr == null`, `out == null`
      and `outLen == null`; the buffer handed over through *out is a fresh
      heap block the caller now owns. */
  method MsgRecv(ch: Channel, heap: Heap, replyHdr: Cell?<SockMsgReply>,
                 out: Cell?<array?<byte>>, outLen: Cell?<nat>) returns (res: int)
    requires ch.open && ch.connected
    modifies replyHdr, out, outLen, heap, ch`reply, ch`inbound
    ensures var o := RecvSpec(replyHdr != null, out != null, outLen != null, old(ch.reply), old(ch.inbound), old(heap.avail));
            res == o.ret && ch.inbound == o.inbound
            && ch.reply == (if replyHdr != null then None else old(ch.reply))
            && (replyHdr != null ==> replyHdr.value == (if o.header.Some? then o.header.value else ZERO_REPLY))
    ensures var o := RecvSpec(replyHdr != null, out != null, outLen != null, old(ch.reply), old(ch.inbound), old(heap.avail));
            (out != null && !o.slotsReset ==> out.value == old(out.value))
            && (out != null && o.slotsReset && o.handed.None? ==> out.value == null)
            && (outLen != null ==> outLen.value == if o.slotsReset then o.outLen else old(outLen.value))
    // no block stays allocated unless it is the one handed over through *out
    ensures var o := RecvSpec(replyHdr != null, out != null, outLen != null, old(ch.reply), old(ch.inbound), old(heap.avail));
            o.handed.None? ==> heap.live == old(heap.live) && heap.avail == old(heap.avail)
    ensures var o := RecvSpec(replyHdr != null, out != null, outLen != null, old(ch.reply), old(ch.inbound), old(heap.avail));
            o.handed.Some? ==>
              out != null && out.value != null && fresh(out.value) && out.value[..] == o.handed.value
              && heap.live == old(heap.live)[out.value := |o.handed.value|]
              && heap.avail == old(heap.avail) - |o.handed.value|
    // malloc is called once, for exactly the reply's length, iff RecvSpec says so
    ensures var o := RecvSpec(replyHdr != null, out != null, outLen != null, old(ch.reply), old(ch.inbound), old(heap.avail));
            heap.requests == old(heap.requests) + (if o.mallocSize.Some? then [o.mallocSize.value] else [])
  {
    var msg: array?<byte> := null;
    ghost var o := RecvSpec(replyHdr != null, out != null, outLen != null, ch.reply, ch.inbound, heap.avail);
    ghost var inbound := ch.inbound;
    if replyHdr == null {
      return -ESOCKOPT_INVAL;
    }
    if out != null {
      out.value := null;
    }
    if outLen != null {
      outLen.value := 0;
    }
    var len := SOCK_MSG_REPLY_SIZE;
    replyHdr.value := ZERO_REPLY;
    res := ch.ReadHeader(replyHdr);
    if len != res {
      assert o == RecvOutcome(-ESOCKOPT_IO, true, None, None, None, 0, inbound);
      return -ESOCKOPT_IO;
    }
    ghost var h := replyHdr.value;
    if replyHdr.value.errcode != 0 {
      assert o == RecvOutcome(h.errcode, true, Some(h), None, None, 0, inbound);
      return replyHdr.value.errcode;
    }
    if replyHdr.value.len > 0 {
      msg := heap.AllocBytes(replyHdr.value.len);
      if msg == null {
        assert o == RecvOutcome(-ESOCKOPT_NOMEM, true, Some(h), Some(h.len), None, 0, inbound);
        return -ESOCKOPT_NOMEM;
      }
      res := ch.ReadBody(msg, replyHdr.value.len);
      if res != replyHdr.value.len {
        heap.Free(msg);
        AllocThenFree(old(heap.live), msg, h.len);
        assert o == RecvOutcome(-ESOCKOPT_IO, true, Some(h), Some(h.len), None, 0, []);
        return -ESOCKOPT_IO;
      }
      assert msg[..] == old(ch.inbound)[..replyHdr.value.len];
    }
    if SOCKOPT_VERSION != replyHdr.value.version {
      if replyHdr.value.len > 0 {
        heap.Free(msg);
        AllocThenFree(old(heap.live), msg, h.len);
      }
      return -ESOCKOPT_VERSION;
    }
    if out != null && outLen != null {
      out.value := msg;
      outLen.value := replyHdr.value.len;
    } else if replyHdr.value.len > 0 {
      heap.Free(msg);
      AllocThenFree(old(heap.live), msg, h.len);
      if out != null {
        out.value := null;
      }
      if outLen != null {
        outLen.value := 0;
      }
    }
    return ESOCKOPT_OK;
  }

  /** The tail both drivers share once connect() has succeeded: send the
      filled-in header `msg` and the payload, free the header, read the reply
      (its body into *out and *out_len when those are given) and close the
      socket on every path. The ghost `env` and `avail` name the peer's script
      and the heap the driver started with. */
  method Exchange(heap: Heap, ch: Channel, msg: Cell<SockMsg>, kind: MsgType, cmd: int,
                  input: Option<seq<byte>>, inLen: nat, out: Cell?<array?<byte>>, outLen: Cell?<nat>,
                  ghost env: Endpoint, ghost avail: nat) returns (res: int)
    requires input.Some? ==> inLen == |input.value|
    requires ch.open && ch.connected && ch.room == env.room && ch.reply == env.reply && ch.inbound == env.body
    requires msg.value == RequestHeader(cmd, kind, inLen)
    requires msg in heap.live && heap.live[msg] == SOCK_MSG_SIZE && heap.avail + SOCK_MSG_SIZE == avail
    requires (out == null) == (outLen == null)
    requires out != null ==> out.value == null && outLen.value == 0
    modifies heap, ch`room, ch`log, ch`reply, ch`inbound, ch`open, out, outLen
    ensures var o := ExchangeSpec(RequestHeader(cmd, kind, inLen), input, inLen, env.room, env.reply, env.body, avail, out != null);
            res == o.ret && ch.log == old(ch.log) + o.sent && !ch.open
            && (out != null ==> outLen.value == o.outLen && (o.handed.None? ==> out.value == null))
    ensures var o := ExchangeSpec(RequestHeader(cmd, kind, inLen), input, inLen, env.room, env.reply, env.body, avail, out != null);
            o.handed.None? ==> heap.live == old(heap.live) - {msg} && heap.avail == avail
    ensures var o := ExchangeSpec(RequestHeader(cmd, kind, inLen), input, inLen, env.room, env.reply, env.body, avail, out != null);
            o.handed.Some? ==>
              out != null && out.value != null && fresh(out.value) && out.value[..] == o.handed.value
              && heap.live == (old(heap.live) - {msg})[out.value := |o.handed.value|]
              && heap.avail == avail - |o.handed.value|
  {
    res := MsgSend(ch, msg, input, inLen);
    heap.Free(msg);
    if res != 0 {
      ch.Close();
      return res;
    }
    var replyHdr := new Cell(ZERO_REPLY);
    res := MsgRecv(ch, heap, replyHdr, out, outLen);
    if res != 0 {
      ch.Close();
      return res;
    }
    if replyHdr.value.errcode != 0 {
      // a non-zero errcode has already made MsgRecv fail
      assert false;
    }
    ch.Close();
    return ESOCKOPT_OK;
  }

  /** dpvs_setsockopt: one SET transaction on a fresh socket. The socket is
      returned so that its final state (closed or leaked) and the request
      written to it can be stated; it is null when socket() was never called. */
  method SetSockOpt(heap: Heap, env: Endpoint, cmd: int, input: Option<seq<byte>>, inLen: nat)
    returns (res: int, ch: Channel?)
    requires input.Some? ==> inLen == |input.value|
    modifies heap
    ensures var o := SetSpec(env, old(heap.avail), cmd, input, inLen);
            res == o.ret && (ch == null <==> !o.socketMade)
            && (ch != null ==> fresh(ch) && ch.connected == o.connected
                               && ch.open == (env.socketOk && !o.closed) && ch.log == o.sent)
    // the header block and any reply body are freed before return
    ensures heap.live == old(heap.live) && heap.avail == old(heap.avail)
  {
    var msg := heap.AllocMsg();
    if msg == null {
      return -ESOCKOPT_INVAL, null;
    }
    ch := new Channel.Socket(env);
    res := ch.Connect();
    if -1 == res {
      heap.Free(msg);
      AllocThenFree(old(heap.live), msg, SOCK_MSG_SIZE);
      return -ESOCKOPT_IO, ch;
    }
    msg.value := ZERO_MSG;
    msg.value := msg.value.(version := SOCKOPT_VERSION, id := cmd, msgType := SockoptSet, len := inLen);
    SetAfterConnect(env, old(heap.avail), cmd, input, inLen);
    res := Exchange(heap, ch, msg, SockoptSet, cmd, input, inLen, null, null, env, old(heap.avail));
    AllocThenFree(old(heap.live), msg, SOCK_MSG_SIZE);
  }

  /** dpvs_getsockopt: one GET transaction on a fresh socket; on success *out
      and *out_len receive the reply body, which the caller then owns. */
  method GetSockOpt(heap: Heap, env: Endpoint, cmd: int, input: Option<seq<byte>>, inLen: nat,
                    out: Cell?<array?<byte>>, outLen: Cell?<nat>) returns (res: int, ch: Channel?)
    requires input.Some? ==> inLen == |input.value|
    modifies heap, out, outLen
    ensures var o := GetSpec(env, old(heap.avail), cmd, input, inLen, out != null, outLen != null);
            res == o.ret && (ch == null <==> !o.socketMade)
            && (ch != null ==> fresh(ch) && ch.connected == o.connected
                               && ch.open == (env.socketOk && !o.closed) && ch.log == o.sent)
    // with a slot missing nothing is written; otherwise the slots hold the outcome
    ensures out == null || outLen == null ==>
              (out != null ==> out.value == old(out.value)) && (outLen != null ==> outLen.value == old(outLen.value))
    ensures var o := GetSpec(env, old(heap.avail), cmd, input, inLen, out != null, outLen != null);
            out != null && outLen != null ==> outLen.value == o.outLen && (o.handed.None? ==> out.value == null)
    // the header block is freed; the only block that outlives the call is the one in *out
    ensures var o := GetSpec(env, old(heap.avail), cmd, input, inLen, out != null, outLen != null);
            o.handed.None? ==> heap.live == old(heap.live) && heap.avail == old(heap.avail)
    ensures var o := GetSpec(env, old(heap.avail), cmd, input, inLen, out != null, outLen != null);
            o.handed.Some? ==>
              out != null && out.value != null && fresh(out.value) && out.value[..] == o.handed.value
              && heap.live == old(heap.live)[out.value := |o.handed.value|]
              && heap.avail == old(heap.avail) - |o.handed.value|
  {
    if out == null || outLen == null {
      return -1, null;
    }
    out.value := null;
    outLen.value := 0;
    var msg := heap.AllocMsg();
    if msg == null {
      return -ESOCKOPT_NOMEM, null;
    }
    ch := new Channel.Socket(env);
    res := ch.Connect();
    if -1 == res {
      heap.Free(msg);
      AllocThenFree(old(heap.live), msg, SOCK_MSG_SIZE);
      return -ESOCKOPT_IO, ch;
    }
    msg.value := ZERO_MSG;
    msg.value := msg.value.(version := SOCKOPT_VERSION, id := cmd, msgType := SockoptGet, len := inLen);
    GetAfterConnect(env, old(heap.avail), cmd, input, inLen, out != null, outLen != null);
    res := Exchange(heap, ch, msg, SockoptGet, cmd, input, inLen, out, outLen, env, old(heap.avail));
    AllocThenFree(old(heap.live), msg, SOCK_MSG_SIZE);
  }
}
