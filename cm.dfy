/**
 * The central manager of ivy/cm.go: a ledger of page records and a single
 * slot for the one request it is handling.  Each handler is one atomic
 * step.  The source holds the manager's lock inside handleReadRequest,
 * ReadConfirm and handleWriteRequest; ReadRequest sends its forward after
 * that lock is released.  The outcome of every outbound RPC is a parameter,
 * and the message handed to the transport is an out-parameter.
 */
module IvyCm {
  import opened IvyMessages
  import opened IvyCmRecords

  /**
   * Index of the first record for pageNum, or |records| when there is none:
   * where the source's `for ... range` loops over the records stop.
   */
  function FirstRecord(records: seq<PageRecord>, pageNum: int): (i: nat)
    reads records
    ensures i <= |records|
    ensures i < |records| ==> records[i].PageNum == pageNum
    ensures forall j :: 0 <= j < i ==> records[j].PageNum != pageNum
    decreases |records|
  {
    if records == [] then 0
    else if records[0].PageNum == pageNum then 0
    else 1 + FirstRecord(records[1..], pageNum)
  }

  /**
   * The owner the lookup loops leave behind: the Owner of the first record
   * for pageNum, or `absent` (the loop variable's initial value) when no
   * record matches.
   */
  function LookupOwner(records: seq<PageRecord>, pageNum: int, absent: int): (owner: int)
    reads records
    ensures owner == absent ||
            exists i :: 0 <= i < |records| && records[i].PageNum == pageNum && records[i].Owner == owner
  {
    var i := FirstRecord(records, pageNum);
    if i < |records| then records[i].Owner else absent
  }

  /** When some record is for pageNum, the lookup yields the Owner of the first such record. */
  lemma LookupOwnerFound(records: seq<PageRecord>, pageNum: int, absent: int, i: int)
    requires 0 <= i < |records| && records[i].PageNum == pageNum
    requires forall j :: 0 <= j < i ==> records[j].PageNum != pageNum
    ensures LookupOwner(records, pageNum, absent) == records[i].Owner
  {
  }

  /** When no record is for pageNum, the lookup yields `absent`. */
  lemma LookupOwnerMissing(records: seq<PageRecord>, pageNum: int, absent: int)
    requires forall j :: 0 <= j < |records| ==> records[j].PageNum != pageNum
    ensures LookupOwner(records, pageNum, absent) == absent
  {
  }

  class CentralManager {
    var Id: int
    var clock: int
    var PageRecords: seq<PageRecord>
    var currentRequest: Option<Request>

    /** The manager as RegisterCM builds it: idle, with the configured records. */
    constructor (cmId: int, clock0: int, pageRecords: seq<PageRecord>)
      ensures Id == cmId && clock == clock0 && PageRecords == pageRecords
      ensures currentRequest == None
    {
      Id, clock, PageRecords := cmId, clock0, pageRecords;
      currentRequest := None;
    }

    /**
     * Refuses when a request is outstanding; otherwise installs the read
     * request and only then looks the page up, so the slot stays occupied
     * when the page is not found.  A record whose Owner is -1 is reported
     * as not found too.
     */
    method HandleReadRequest(args: ReadRequestArgs) returns (ownerId: int, err: Outcome)
      modifies this`currentRequest
      ensures PageRecords == old(PageRecords)
      ensures old(currentRequest).Some? ==>
        ownerId == -1 && err == Fail(AlreadyHandling) && currentRequest == old(currentRequest)
      ensures old(currentRequest).None? ==>
        currentRequest == Some(Request(args.PageNum, args.RequesterId, args.Clock, READ, "")) &&
        ownerId == LookupOwner(PageRecords, args.PageNum, -1) &&
        err == (if ownerId == -1 then Fail(PageNotFound) else Pass)
    {
      if currentRequest.Some? {
        return -1, Fail(AlreadyHandling);
      }
      currentRequest := Some(Request(args.PageNum, args.RequesterId, args.Clock, READ, ""));

      ownerId := -1;
      var k := 0;
      while k < |PageRecords|
        invariant 0 <= k <= FirstRecord(PageRecords, args.PageNum)
        invariant ownerId == -1
      {
        if PageRecords[k].PageNum == args.PageNum {
          ownerId := PageRecords[k].Owner;
          break;
        }
        k := k + 1;
      }
      if ownerId == -1 {
        return -1, Fail(PageNotFound);
      }
      err := Pass;
    }

    /** Dials the owner and calls Node.ReadForward with the request's fields. */
    method SendReadForward(nodeId: int, args: ReadRequestArgs, owner: Rpc<ReadForwardResponse>)
      returns (sent: Option<Envelope<ReadForwardArgs>>, err: Outcome)
      ensures sent == if owner.DialFailed? then None
                      else Some(Envelope(nodeId, ReadForwardArgs(args.PageNum, args.RequesterId, args.Clock)))
      ensures err == Pass <==> owner.Replied?
    {
      if owner.DialFailed? {
        return None, Fail(Transport);
      }
      sent := Some(Envelope(nodeId, ReadForwardArgs(args.PageNum, args.RequesterId, args.Clock)));
      err := CallOutcome(owner);
    }

    /**
     * The ReadRequest RPC: fails exactly when HandleReadRequest does; on
     * success forwards the request to the owner and succeeds whatever the
     * forward's outcome.
     */
    method ReadRequest(args: ReadRequestArgs, owner: Rpc<ReadForwardResponse>)
      returns (forward: Option<Envelope<ReadForwardArgs>>, err: Outcome)
      modifies this`currentRequest
      ensures PageRecords == old(PageRecords)
      ensures old(currentRequest).Some? ==>
        err == Fail(AlreadyHandling) && currentRequest == old(currentRequest) && forward == None
      ensures old(currentRequest).None? ==>
        var ownerId := LookupOwner(PageRecords, args.PageNum, -1);
        currentRequest == Some(Request(args.PageNum, args.RequesterId, args.Clock, READ, "")) &&
        (ownerId == -1 ==> err == Fail(PageNotFound) && forward == None) &&
        (ownerId != -1 ==>
           err == Pass &&
           forward == (if owner.DialFailed? then None
                       else Some(Envelope(ownerId, ReadForwardArgs(args.PageNum, args.RequesterId, args.Clock)))))
    {
      var ownerId;
      ownerId, err := HandleReadRequest(args);
      if err != Pass {
        return None, err;
      }
      var forwardErr;
      forward, forwardErr := SendReadForward(ownerId, args, owner);
    }

    /**
     * Clears the slot when the confirm's page and requester match the
     * outstanding request (its clock is not compared).  The copy-set is not
     * touched and the reply's Confirm is never set, so it stays false.
     */
    method ReadConfirm(args: ReadConfirmArgs) returns (reply: ReadConfirmResponse, err: Outcome)
      requires currentRequest.Some?
      modifies this`currentRequest
      ensures PageRecords == old(PageRecords)
      ensures !reply.Confirm
      ensures var req := old(currentRequest).value;
        if req.PageNum != args.PageNum || req.RequesterId != args.RequesterId
        then err == Fail(WrongConfirm) && currentRequest == old(currentRequest)
        else err == Pass && currentRequest == None
    {
      reply := ReadConfirmResponse(false);
      if currentRequest.value.PageNum != args.PageNum || currentRequest.value.RequesterId != args.RequesterId {
        return reply, Fail(WrongConfirm);
      }
      currentRequest := None;
      err := Pass;
    }

    /**
     * Looks up the owner and copy-set of the page (the owner is 0 when no
     * record matches), reports "page not found" when that owner is 0, and
     * otherwise walks the copy-set with the invalidation stub, which does
     * nothing, and answers with a WRITEFORWARD message.  There is no busy
     * check and no state changes.  `invalidated` lists the nodes the stub
     * was called for, in order.
     */
    method HandleWriteRequest(req: RequestMessage)
      returns (msg: Option<ForwardMessage>, err: Outcome, invalidated: seq<int>)
      ensures var i := FirstRecord(PageRecords, req.PageNum);
        var found := i < |PageRecords| && PageRecords[i].Owner != 0;
        (!found ==> msg == None && err == Fail(PageNotFound) && invalidated == []) &&
        (found ==> msg == Some(ForwardMessage(req.PageNum, req.RequesterId, req.Clock, WRITEFORWARD)) &&
                   err == Pass && invalidated == PageRecords[i].CopySet)
    {
      var owner := 0;
      var copySet: seq<int> := [];
      var k := 0;
      while k < |PageRecords|
        invariant 0 <= k <= FirstRecord(PageRecords, req.PageNum)
        invariant owner == 0 && copySet == []
      {
        if PageRecords[k].PageNum == req.PageNum {
          owner := PageRecords[k].Owner;
          copySet := PageRecords[k].CopySet;
          break;
        }
        k := k + 1;
      }
      assert owner == LookupOwner(PageRecords, req.PageNum, 0);
      if owner == 0 {
        return None, Fail(PageNotFound), [];
      }

      invalidated := [];
      for n := 0 to |copySet|
        invariant invalidated == copySet[..n]
      {
        invalidated := invalidated + [copySet[n]];
      }
      msg := Some(ForwardMessage(req.PageNum, req.RequesterId, req.Clock, WRITEFORWARD));
      err := Pass;
    }
  }
}
