# sockopt.c: the control-socket client of fast-lb's keepalived

fast-lb's keepalived talks to the data plane through a user-space imitation
of `setsockopt`/`getsockopt`. Each call opens a Unix-domain stream socket,
connects to the control path and sends one request: a fixed header
(`struct dpvs_sock_msg`: version, command id, SET/GET, payload length)
followed by the payload. It then reads one reply: a fixed header
(`struct dpvs_sock_msg_reply`: version, id, errcode, errstr, body length),
followed by a body of that length. Finally it closes the socket.

This project models the four functions of
`tools/keepalived/keepalived/libipvs-2.6/sockopt.c`:

- the framer `sockopt_msg_send`;
- the decoder `sockopt_msg_recv`;
- the two drivers `dpvs_setsockopt` and `dpvs_getsockopt`.

It proves what they do on every path.

Files:

- `types.dfy` (module `SockOptTypes`): the two headers as records, and the
  protocol constants.
- `transport.dfy` (module `Transport`): the collaborators. These are the
  socket with the peer behind it (class `Channel`), malloc/free (class
  `Heap`) and a pointer slot written by a callee (class `Cell`).
  - The peer is a script fixed when the socket is created. It fixes:
    - whether `socket()` yields a descriptor;
    - whether a server listens;
    - how many bytes the server takes before the stream breaks (a short `sendn`);
    - the reply header, or none (a short header `readn`);
    - the bytes that follow the header (fewer than the length field is
      a short body `readn`).
  - `Heap` keeps the map of live blocks to their sizes, and a ghost log of
    the size of every malloc call. An allocation fails exactly when it asks
    for more than the remaining budget.
- `sockopt_spec.dfy` (module `SockOptSpec`): one pure function per C function.
  Each gives the whole outcome of a call from the state it starts in: the
  return code, what went on the stream, what is left in the caller's slots
  and, for the drivers, whether the socket was made, connected and closed.
  `RecvSpec` also gives the size passed to malloc, if malloc was called. The properties the code
  promises are stated as the `ensures` of these functions. The order of the
  early returns is stated through `FirstFailure`, the first failing test of
  a list of tests.
- `sockopt.dfy` (module `SockOpt`): the four functions as methods. They work
  step by step on a `Channel`, a `Heap` and `Cell` slots, in the order of the
  C code. Each is proved to leave exactly the outcome its specification
  function describes.
  - The tail the two drivers share after a successful connect is a single
    method, `Exchange`: send, free the header, receive, errcode test, close.
  - A null pointer is a null `Cell?`. A null `data` or `in` pointer is `None`.

In these places the code does something a reader may not expect, and the
model follows the code:

- A non-zero `errcode` is returned before the version is examined. A reply
  with a bad version and a non-zero errcode therefore yields the errcode,
  not a version error.
- On a server error no reply body is read or drained.
- On connect failure the drivers return without calling `close`, so the
  descriptor leaks (`connected` false, `closed` false, `open` left as
  `socket()` made it).
- A failing `socket()` is not tested separately; it surfaces as a connect
  failure.

The drivers' own `errcode` test (sockopt.c:160-164 and 228-232) is
unreachable, because the decoder has already returned a non-zero errcode.
In the methods it is an `assert false` branch. `SetFollowsCheckOrder` and
`GetFollowsCheckOrder` state it as a property.

## Model

| member | source | states |
|---|---|---|
| SockOptSpec.FirstFailure | tools/keepalived/keepalived/libipvs-2.6/sockopt.c:48-107 | A chain of early returns yields ESOCKOPT_OK when no test fails, and otherwise the code of the first test that fails, whichever later tests also fail. |
| SockOptSpec.SendSpec | tools/keepalived/keepalived/libipvs-2.6/sockopt.c:11-40 | A null header gives -ESOCKOPT_INVAL, and only then; nothing is sent. Otherwise the header is the first transfer. A second transfer, carrying exactly `data[..data_len]`, happens iff the header went out whole and `data` is non-null with a non-zero `data_len`. The result is 0 iff every transfer made was complete, and otherwise -ESOCKOPT_IO. With a header, the result is 0 iff the peer has room for the whole header plus the whole body when there is one. The bytes the peer took are exactly those the transfers report. |
| SockOpt.MsgSend | tools/keepalived/keepalived/libipvs-2.6/sockopt.c:11-40 | The stepwise framer returns `SendSpec`'s code. It appends exactly `SendSpec`'s transfers to the socket's log and leaves the peer's remaining room as `SendSpec` says. |
| SockOptSpec.RecvSpec | tools/keepalived/keepalived/libipvs-2.6/sockopt.c:42-108 | A null `reply_hdr` gives -ESOCKOPT_INVAL before the slots are touched. Otherwise the slots are reset and the tests run in order: a short header gives -ESOCKOPT_IO; a non-zero errcode is returned verbatim with no allocation and no body read; malloc is called iff len > 0, for exactly len bytes, and its failure gives -ESOCKOPT_NOMEM; a short body gives -ESOCKOPT_IO; a version mismatch, checked after the body is drained, gives -ESOCKOPT_VERSION. Success holds iff all tests pass. The slots stay NULL/0 on every failure. A buffer is handed over iff the call succeeds, both slots are given and len > 0, and it holds exactly the bytes read. `*out_len` is len on success with both slots. |
| SockOpt.MsgRecv | tools/keepalived/keepalived/libipvs-2.6/sockopt.c:42-108 | The stepwise decoder returns `RecvSpec`'s code and consumes `RecvSpec`'s bytes. It fills `*reply_hdr` with the header read, or leaves the memset zero on a short read. It writes the slots as `RecvSpec` says. It calls malloc exactly when `RecvSpec` says, once and for exactly the reply's length; so an errcode reply or an empty body allocates nothing. When nothing is handed over, the heap is exactly as before, so every malloc'd buffer was freed. When a buffer is handed over, it is a fresh block in `*out` holding the body, and it is the only new live block. |
| SockOptSpec.RecvFollowsCheckOrder | tools/keepalived/keepalived/libipvs-2.6/sockopt.c:48-94 | The decoder's result is `FirstFailure` of its tests in source order: null header, short header, errcode, allocation, short body, version. |
| SockOptSpec.ExchangeSpec | tools/keepalived/keepalived/libipvs-2.6/sockopt.c:144-167 | After a successful connect, the socket is closed on every path and the request header is the first transfer. The payload `in` is the second and last transfer, exactly when the header went out whole and `in` is non-null with a non-zero `in_len`. Success holds exactly when every transfer was complete and the reply arrived whole, error-free and with the right version. Only a successful exchange that wants the body hands one back, with `*out_len` equal to the reply's length and the buffer holding exactly its body. |
| SockOpt.Exchange | tools/keepalived/keepalived/libipvs-2.6/sockopt.c:144-167 | The shared driver tail returns `ExchangeSpec`'s code and logs its transfers. It always closes the socket and frees the request header. It writes the slots as `ExchangeSpec` says, and leaves live only the handed-over body buffer. |
| SockOptSpec.RequestHeader | tools/keepalived/keepalived/libipvs-2.6/sockopt.c:139-143 | The request header is the zeroed header with version SOCKOPT_VERSION, id cmd, the request kind and len in_len filled in. |
| SockOptSpec.Transaction | tools/keepalived/keepalived/libipvs-2.6/sockopt.c:130-167 | `socket()` is always called and its result is never tested. Connect succeeds iff there is a descriptor and a listening server. On connect failure the result is -ESOCKOPT_IO, nothing is sent or handed back, and there is no close. Otherwise the socket is closed on every path. The header for cmd, kind and in_len goes first, and then the payload `in` when the header went out whole and `in` is non-null with a non-zero length. Success holds iff the request went out whole and a valid reply came back. Only a successful call that wants the body hands one back, holding exactly that body. |
| SockOptSpec.SetSpec | tools/keepalived/keepalived/libipvs-2.6/sockopt.c:110-168 | Header allocation failure gives -ESOCKOPT_INVAL, before any socket exists, and only then. Connect failure gives -ESOCKOPT_IO with no close. The socket is closed iff the connect succeeded. The first transfer is the SET header, with version SOCKOPT_VERSION, id cmd and len in_len. The payload `in` follows it exactly when the header went out whole and `in` is non-null with a non-zero `in_len`. It is the last transfer. Without a connection nothing is sent. Nothing is handed back. Success holds iff the request went out whole and a whole, error-free reply with the right version came back. |
| SockOpt.SetSockOpt | tools/keepalived/keepalived/libipvs-2.6/sockopt.c:110-168 | The stepwise driver returns `SetSpec`'s code and creates a socket iff `SetSpec` says one is made. The socket's connected/open state and its log are as `SetSpec` says. The heap is unchanged on return, so the header block and any reply body are freed. |
| SockOptSpec.GetSpec | tools/keepalived/keepalived/libipvs-2.6/sockopt.c:170-236 | A null `out` or `out_len` gives -1 before anything else. Header allocation failure then gives -ESOCKOPT_NOMEM, before any socket exists. Connect failure gives -ESOCKOPT_IO with no close. The socket is closed iff the connect succeeded, and the first transfer is the GET header. The payload `in` follows it exactly when the header went out whole and `in` is non-null with a non-zero `in_len`. It is the last transfer. Without a connection nothing is sent. Success holds iff the request and a valid reply both went through. On failure the slots are NULL/0. On success `*out_len` is the reply's length and a buffer holding exactly the body is handed over iff that length is non-zero. |
| SockOpt.GetSockOpt | tools/keepalived/keepalived/libipvs-2.6/sockopt.c:170-236 | The stepwise driver returns `GetSpec`'s code and leaves the socket as `GetSpec` says. With a slot missing it writes nothing. Otherwise the slots hold `GetSpec`'s outcome. The only block the call leaves live is the handed-over body, fresh and holding exactly the reply body; blocks live before the call stay live. |
| SockOptSpec.SetFollowsCheckOrder | tools/keepalived/keepalived/libipvs-2.6/sockopt.c:124-164 | `dpvs_setsockopt`'s result is `FirstFailure` of its tests in source order: allocation, connect, send, receive, errcode. The errcode test never fails once the earlier tests pass. |
| SockOptSpec.GetFollowsCheckOrder | tools/keepalived/keepalived/libipvs-2.6/sockopt.c:180-232 | `dpvs_getsockopt`'s result is `FirstFailure` of its tests in source order: slots, allocation, connect, send, receive, errcode. The errcode test never fails once the earlier tests pass. |
| Transport.Heap.AllocBytes | tools/keepalived/keepalived/libipvs-2.6/sockopt.c:74-78 | malloc(len) either fails, changing nothing, or returns a fresh block of exactly len bytes, recorded as live with that size. Either way the call is logged with its size. |
| Transport.Heap.AllocMsg | tools/keepalived/keepalived/libipvs-2.6/sockopt.c:123-128 | malloc of a request header either fails, changing nothing, or returns a fresh header block recorded as live. Either way the call is logged with its size. |
| Transport.Heap.Free | tools/keepalived/keepalived/libipvs-2.6/sockopt.c:84 | free removes exactly that block from the live set and returns its size to the budget. The malloc log is unchanged. |
| Transport.Channel.SendN | tools/keepalived/keepalived/libipvs-2.6/sockopt.c:23 | sendn transfers the whole block or, when the peer stops taking bytes, a short count, and logs what was offered and what was taken. |
| Transport.Channel.ReadHeader | tools/keepalived/keepalived/libipvs-2.6/sockopt.c:60 | readn of a reply header either reads the whole header into `*reply_hdr` or returns a short count and leaves it as it was. |
| Transport.Channel.ReadBody | tools/keepalived/keepalived/libipvs-2.6/sockopt.c:80 | readn of a body copies the next min(len, available) bytes into the buffer, leaves the rest of the buffer alone, and consumes those bytes. |
| Transport.Channel.Socket | tools/keepalived/keepalived/libipvs-2.6/sockopt.c:130 | socket() yields an open descriptor exactly when the peer's script says one can be made. The descriptor is not connected and has sent nothing. The peer's room, reply and body are those of the script. |
| Transport.Channel.Close | tools/keepalived/keepalived/libipvs-2.6/sockopt.c:150 | close marks the descriptor closed. |
| Transport.Channel.Connect | tools/keepalived/keepalived/libipvs-2.6/sockopt.c:131 | connect returns 0 exactly when a valid descriptor reaches a listening server, and -1 otherwise. |

## Left out

- The bodies of `sendn` and `readn` come from common.c, which is not part of this model, and so do their retry loops. They are modelled only by their result: a whole transfer, or a short one when the peer stops.
- The `socket`, `connect` and `close` system calls, the `sockaddr_un` set-up and the `UNIX_DOMAIN` path are not modelled, because they are operating-system plumbing. Connect succeeds exactly when the descriptor is valid and a server listens.
- `errno`/`strerror` and all `fprintf(stderr, …)` logging are left out, because they only produce output.
- Byte layouts, `sizeof` values and the numeric values of `SOCKOPT_VERSION` and the `ESOCKOPT_*` codes are defined in sockopt.h, which is not part of this model. The constants are stand-ins, and the proofs only use the fact that the error kinds are distinct and non-zero.
- A header read that stops part-way is modelled as reading nothing into `*reply_hdr`, which keeps its memset zero. The partly filled bytes are not modelled.
- malloc failure is modelled as a request larger than a fixed budget. Failure from fragmentation or other causes is not modelled. One consequence: inside the drivers, once the request header has been allocated, a reply body of at most `sizeof(struct dpvs_sock_msg)` bytes can never fail allocation. So the model's drivers never report -ESOCKOPT_NOMEM for such a body.
- Concurrency is not modelled: nothing in the file is shared between calls.
- The server side and the meaning of command payloads are not modelled, because they are outside this file.
- SockOpt.SetSockOpt: does not model the conversion of `size_t in_len` to `int data_len`, which wraps for payloads of 2^31 bytes or more; the payload length is an unbounded natural.
- SockOpt.GetSockOpt: does not model the conversion of `size_t in_len` to `int data_len`, which wraps for payloads of 2^31 bytes or more; the payload length is an unbounded natural.
- SockOpt.MsgRecv: does not model the comparison of `int res` with the reply's length for bodies of 2^31 bytes or more. That outcome depends on the width of `len` and of readn's result, which are defined in sockopt.h and common.h, not part of this model. The reply length is an unbounded natural.
- SockOpt.MsgSend: `data_len` is a mathematical integer limited to the payload's length, so a negative or oversized `data_len` from a caller outside these drivers is not modelled.
