/**
 * Clients of the manager and node handlers: runs of the read protocol on the
 * configuration of runcm/main.go and runnode1/main.go (page 1 owned by node 1,
 * which holds it as "Hello" with WRITE access), showing what the handlers'
 * contracts alone imply for the system as written.
 */
module IvyScenarios {
  import opened IvyMessages
  import opened IvyCmRecords
  import opened IvyCm
  import opened IvyNode

  /**
   * The first half of a read of page 1 by node 2: node 2 misses and sends its
   * request, the manager installs it and forwards it to the owner, node 1,
   * and node 1 downgrades its page to READ and delivers it to node 2.
   */
  method RequestAndForward(cm: CentralManager, record: PageRecord, owner: Node, ownerPage: Page, reader: Node)
    returns (delivery: SendPageArgs)
    requires cm.PageRecords == [record] && record.PageNum == 1 && record.Owner == 1 && cm.currentRequest == None
    requires owner.Id == 1 && owner.Pages == [ownerPage] && ownerPage.PageNum == 1 && ownerPage.Content == "Hello"
    requires reader.Id == 2 && reader.currentCM == 0 && reader.Pages == [] && reader.currentRequest == None
    modifies cm`currentRequest, reader`currentRequest, ownerPage
    ensures delivery == SendPageArgs(1, "Hello", 1)
    ensures ownerPage.PageNum == 1 && ownerPage.Content == "Hello" && ownerPage.Access == READ
    ensures cm.currentRequest == Some(Request(1, 2, 0, READ, ""))
    ensures reader.currentRequest == Some(Request(1, 2, 0, READ, ""))
  {
    // the miss: node 2 sends its read request to the manager
    var local, text, request := reader.ReadFrom(1, Replied(ReadRequestResponse));
    assert request == Some(Envelope(0, ReadRequestArgs(1, 2, 0)));
    var forward, err := cm.ReadRequest(request.value.body, Replied(ReadForwardResponse));
    assert FirstRecord([record], 1) == 0;
    assert LookupOwner([record], 1, -1) == 1;
    assert forward == Some(Envelope(1, ReadForwardArgs(1, 2, 0)));

    // the owner serves the forward
    assert FirstPage(owner.Pages, 1) == 0;
    var sent, sendErr := owner.ReadForward(forward.value.body, Replied(SendPageResponse));
    delivery := sent.value.body;
  }

  /**
   * Node 2 reads page 1.  The page travels owner -> requester and is served
   * from the requester's cache afterwards; the owner is downgraded to READ;
   * the manager ends idle; but the copy-set stays empty, and because the
   * manager never sets Confirm the requester's confirmation reports failure.
   */
  method ReadFetch() returns (ownerAccess: Kind, hit: bool, content: string, copySet: seq<int>,
                              confirmErr: Outcome, managerIdle: bool)
    ensures ownerAccess == READ
    ensures hit && content == "Hello"
    ensures copySet == []
    ensures confirmErr == Fail(ReadConfirmationFailed)
    ensures managerIdle
  {
    var record := new PageRecord(1, [], 1);
    var cm := new CentralManager(0, 0, [record]);
    var ownerPage := new Page(1, "Hello", WRITE);
    var owner := new Node(1, 0, [ownerPage]);
    var reader := new Node(2, 0, []);

    var delivery := RequestAndForward(cm, record, owner, ownerPage, reader);

    // the manager's answer to the confirmation the requester sends for its pending request
    var req := reader.currentRequest.value;
    var reply, confirmedErr := cm.ReadConfirm(ReadConfirmArgs(req.PageNum, req.RequesterId, req.Clock));

    // the requester caches the delivery and confirms once; SendPage discards the confirmation's outcome
    var confirmSent, confirmed, pageErr := reader.SendPage(delivery, Replied(reply));
    confirmErr := confirmed.value;
    assert FirstReadable(reader.Pages, 1) == 0;

    var none;
    hit, content, none := reader.ReadFrom(1, DialFailed);
    ownerAccess := ownerPage.Access;
    copySet := record.CopySet;
    managerIdle := cm.currentRequest.None?;
  }

  /**
   * A read request for a page the ledger does not know fails, yet leaves the
   * manager's slot occupied, so the next request, for a known page, is
   * refused as busy.
   */
  method NotFoundLeavesManagerBusy() returns (first: Outcome, second: Outcome)
    ensures first == Fail(PageNotFound)
    ensures second == Fail(AlreadyHandling)
  {
    var record := new PageRecord(1, [], 1);
    var cm := new CentralManager(0, 0, [record]);
    var forward1, forward2;
    forward1, first := cm.ReadRequest(ReadRequestArgs(2, 2, 0), Replied(ReadForwardResponse));
    assert LookupOwner([record], 2, -1) == -1;
    forward2, second := cm.ReadRequest(ReadRequestArgs(1, 2, 0), Replied(ReadForwardResponse));
  }
}
