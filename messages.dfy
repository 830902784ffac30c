/**
 * Message and request shapes exchanged between the central manager and the
 * nodes (ivy/messages.go), the protocol constants, and the vocabulary the
 * handlers use to report errors and to receive the outcome of an outbound
 * RPC.
 */
module IvyMessages {

  datatype Option<T> = None | Some(value: T)

  /**
   * The integer constants READ, WRITE and WRITEFORWARD of package ivy.
   * A page's Access, a request's TypeOfReq and a forward's TypeOfMessage all
   * draw on them.  NONE stands for any other Access value (a page the node
   * holds but may neither read nor write).
   */
  datatype Kind = NONE | READ | WRITE | WRITEFORWARD

  /** The pending request kept by the manager and by a requesting node. */
  datatype Request = Request(PageNum: int, RequesterId: int, Clock: int, TypeOfReq: Kind, Content: string)

  datatype RequestMessage = RequestMessage(PageNum: int, RequesterId: int, Clock: int, TypeOfReq: Kind)

  datatype ForwardMessage = ForwardMessage(PageNum: int, RequesterId: int, Clock: int, TypeOfMessage: Kind)

  datatype ReadRequestArgs = ReadRequestArgs(PageNum: int, RequesterId: int, Clock: int)
  datatype ReadRequestResponse = ReadRequestResponse

  datatype ReadForwardArgs = ReadForwardArgs(PageNum: int, RequesterId: int, Clock: int)
  datatype ReadForwardResponse = ReadForwardResponse

  datatype SendPageArgs = SendPageArgs(PageNum: int, Content: string, OwnerId: int)
  datatype SendPageResponse = SendPageResponse

  datatype ReadConfirmArgs = ReadConfirmArgs(PageNum: int, RequesterId: int, Clock: int)
  datatype ReadConfirmResponse = ReadConfirmResponse(Confirm: bool)

  /** The error values the handlers return; Transport is any dial or call failure. */
  datatype Error =
    | AlreadyHandling          // "already handling another current request"
    | PageNotFound             // "page not found"
    | WrongConfirm             // "wrong confirm"
    | PageMismatch             // "Page number does not match current request"
    | ReadConfirmationFailed   // "read confirmation failed"
    | Transport                // the error of rpc.Dial or client.Call, passed on

  /** A Go `error` result: Pass is nil. */
  datatype Outcome = Pass | Fail(error: Error)

  /**
   * What an outbound RPC did: the dial failed, the call failed (the transport
   * or the remote handler returned an error), or the remote side replied.
   */
  datatype Rpc<R> = DialFailed | CallFailed | Replied(reply: R)

  /** A message handed to the transport, with the identifier of its receiver. */
  datatype Envelope<A> = Envelope(to: int, body: A)

  /** The outcome a handler passes on when an outbound call did not reply. */
  function CallOutcome<R>(o: Rpc<R>): (r: Outcome)
    ensures r == Pass <==> o.Replied?
    ensures r != Pass ==> r == Fail(Transport)
  {
    if o.Replied? then Pass else Fail(Transport)
  }
}
