/** Wire records and protocol constants of the socket-option channel.
    The header layouts, their sizes and the numeric values of the version and
    of the error kinds live in sockopt.h, which is not part of this model: the
    records below carry only the fields, and the constants are stand-ins: the
    proofs use only that the error kinds are non-zero and distinct. */
module SockOptTypes {

  newtype byte = x: int | 0 <= x < 256

  datatype Option<T> = None | Some(value: T)

  /** Protocol version a reply must carry to be accepted. */
  const SOCKOPT_VERSION: nat := 1

  /** Result codes; the core returns the error kinds negated. */
  const ESOCKOPT_OK: int := 0
  const ESOCKOPT_INVAL: int := 10000
  const ESOCKOPT_IO: int := 10001
  const ESOCKOPT_NOMEM: int := 10002
  const ESOCKOPT_VERSION: int := 10004

  /** sizeof(struct dpvs_sock_msg) and sizeof(struct dpvs_sock_msg_reply). */
  const SOCK_MSG_SIZE: nat := 24
  const SOCK_MSG_REPLY_SIZE: nat := 88

  /** Kind of request; a zero-filled header has neither kind. */
  datatype MsgType = Unset | SockoptSet | SockoptGet

  /** Request header (struct dpvs_sock_msg). */
  datatype SockMsg = SockMsg(version: nat, id: int, msgType: MsgType, len: nat)

  /** Reply header (struct dpvs_sock_msg_reply). */
  datatype SockMsgReply = SockMsgReply(version: nat, id: int, errcode: int, errstr: string, len: nat)

  /** The headers as memset(…, 0, …) leaves them. */
  const ZERO_MSG: SockMsg := SockMsg(0, 0, Unset, 0)
  const ZERO_REPLY: SockMsgReply := SockMsgReply(0, 0, 0, "", 0)

  function Min(a: nat, b: nat): nat
  {
    if a <= b then a else b
  }
}
