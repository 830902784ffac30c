/**
 * A node of ivy/node.go: a page cache (a sequence of references to Page
 * objects, as the source's []*Page) and the slot for the request it has
 * sent to the central manager.  The node takes no lock; each handler is one
 * atomic step of the model.  The outcome of every outbound RPC is a
 * parameter, and the message handed to the transport is an out-parameter.
 */
module IvyNode {
  import opened IvyMessages

  class Page {
    var PageNum: int
    var Content: string
    var Access: Kind

    constructor (pageNum: int, content: string, access: Kind)
      ensures PageNum == pageNum && Content == content && Access == access
    {
      PageNum, Content, Access := pageNum, content, access;
    }
  }

  /** Whether the node may serve a read of this page from its cache. */
  predicate Readable(page: Page)
    reads page
  {
    page.Access == READ || page.Access == WRITE
  }

  /** Index of the first cached page for pageNum that may be read, or |pages|. */
  function FirstReadable(pages: seq<Page>, pageNum: int): (i: nat)
    reads pages
    ensures i <= |pages|
    ensures i < |pages| ==> pages[i].PageNum == pageNum && Readable(pages[i])
    ensures forall j :: 0 <= j < i ==> !(pages[j].PageNum == pageNum && Readable(pages[j]))
    decreases |pages|
  {
    if pages == [] then 0
    else if pages[0].PageNum == pageNum && Readable(pages[0]) then 0
    else 1 + FirstReadable(pages[1..], pageNum)
  }

  /**
   * Index of the first cached page for pageNum, whatever its access, or
   * |pages|.  The same search as IvyCm.FirstRecord, over the node's pages:
   * it models the separate loop of ReadForward.
   */
  function FirstPage(pages: seq<Page>, pageNum: int): (i: nat)
    reads pages
    ensures i <= |pages|
    ensures i < |pages| ==> pages[i].PageNum == pageNum
    ensures forall j :: 0 <= j < i ==> pages[j].PageNum != pageNum
    decreases |pages|
  {
    if pages == [] then 0
    else if pages[0].PageNum == pageNum then 0
    else 1 + FirstPage(pages[1..], pageNum)
  }

  /**
   * Appending a readable page for pageNum makes a cache hit certain: the hit
   * is the earlier readable entry if there is one, and the new page otherwise.
   */
  lemma {:induction false} FirstReadableAfterAppend(pages: seq<Page>, page: Page, pageNum: int)
    requires page.PageNum == pageNum && Readable(page)
    ensures FirstReadable(pages + [page], pageNum) ==
            if FirstReadable(pages, pageNum) < |pages| then FirstReadable(pages, pageNum) else |pages|
    decreases |pages|
  {
    if pages != [] && !(pages[0].PageNum == pageNum && Readable(pages[0])) {
      assert (pages + [page])[1..] == pages[1..] + [page];
      FirstReadableAfterAppend(pages[1..], page, pageNum);
    }
  }

  predicate IsDigit(c: char)
  {
    '0' <= c <= '9'
  }

  /** The number a string of decimal digits denotes, most significant first. */
  function DigitsValue(s: string): nat
    requires forall k :: 0 <= k < |s| ==> IsDigit(s[k])
    decreases |s|
  {
    if s == [] then 0
    else
      assert IsDigit(s[|s| - 1]);
      10 * DigitsValue(s[..|s| - 1]) + (s[|s| - 1] as int - '0' as int)
  }

  /** The decimal digits of a natural number, without leading zeros, as fmt prints it. */
  function NaturalText(n: nat): (r: string)
    ensures |r| > 0
    ensures forall k :: 0 <= k < |r| ==> IsDigit(r[k])
    ensures r[0] == '0' <==> n == 0
    decreases n
  {
    if n < 10 then ["0123456789"[n]] else NaturalText(n / 10) + ["0123456789"[n % 10]]
  }

  /** Reading the digits back gives the number. */
  lemma {:induction false} NaturalTextValue(n: nat)
    ensures DigitsValue(NaturalText(n)) == n
    decreases n
  {
    var r := NaturalText(n);
    if n >= 10 {
      NaturalTextValue(n / 10);
      assert r[..|r| - 1] == NaturalText(n / 10);
    }
  }

  /** Go's decimal rendering of an int: a minus sign exactly for negative numbers, then the digits of |n|. */
  function DecimalText(n: int): (r: string)
    ensures |r| > 0
    ensures r[0] == '-' <==> n < 0
    ensures var digits := if n < 0 then r[1..] else r;
      (forall k :: 0 <= k < |digits| ==> IsDigit(digits[k])) &&
      DigitsValue(digits) == (if n < 0 then -n else n)
  {
    var digits := NaturalText(if n < 0 then -n else n);
    NaturalTextValue(if n < 0 then -n else n);
    if n < 0 then "-" + digits else digits
  }

  /**
   * The text readFrom returns after a request was sent: fmt.Sprintln puts a
   * space between its two operands and a newline at the end, so the page
   * number follows two spaces.
   */
  function RequestSentText(pageNum: int): (r: string)
    ensures |r| > |RequestSentPrefix| + 1
    ensures r[..|RequestSentPrefix|] == RequestSentPrefix
    ensures r[|r| - 1] == '\n'
    ensures DecimalText(pageNum) == r[|RequestSentPrefix|..|r| - 1]
  {
    RequestSentPrefix + DecimalText(pageNum) + "\n"
  }

  /** The literal operand of that Sprintln and the separating space. */
  const RequestSentPrefix: string := "read request sent to CM for page " + " "

  class Node {
    var Id: int
    var Pages: seq<Page>
    var currentCM: int
    var currentRequest: Option<Request>

    /** The node as NodeStart builds it: no pending request, the configured pages. */
    constructor (nodeId: int, cmId: int, pages: seq<Page>)
      ensures Id == nodeId && currentCM == cmId && Pages == pages
      ensures currentRequest == None
    {
      Id, currentCM, Pages := nodeId, cmId, pages;
      currentRequest := None;
    }

    /**
     * Dials the manager; once the dial succeeds the pending request is
     * installed (replacing any earlier one) and stays installed even when
     * the call itself fails.  The request sent carries the page, the node's
     * id and clock 0.
     */
    method ReadRequestFromCM(pageNum: int, cm: Rpc<ReadRequestResponse>)
      returns (sent: Option<Envelope<ReadRequestArgs>>, err: Outcome)
      modifies this`currentRequest
      ensures cm.DialFailed? ==> currentRequest == old(currentRequest) && sent == None
      ensures !cm.DialFailed? ==>
        currentRequest == Some(Request(pageNum, Id, 0, READ, "")) &&
        sent == Some(Envelope(currentCM, ReadRequestArgs(pageNum, Id, 0)))
      ensures err == Pass <==> cm.Replied?
      ensures err != Pass ==> err == Fail(Transport)
    {
      if cm.DialFailed? {
        return None, Fail(Transport);
      }
      sent := Some(Envelope(currentCM, ReadRequestArgs(pageNum, Id, 0)));
      currentRequest := Some(Request(pageNum, Id, 0, READ, ""));
      err := CallOutcome(cm);
    }

    /**
     * Serves the first cached page for pageNum that is readable; on a miss
     * asks the manager for the page.  The cache itself is never changed.
     */
    method ReadFrom(pageNum: int, cm: Rpc<ReadRequestResponse>)
      returns (local: bool, content: string, sent: Option<Envelope<ReadRequestArgs>>)
      modifies this`currentRequest
      ensures var i := FirstReadable(Pages, pageNum);
        (i < |Pages| ==> local && content == Pages[i].Content && currentRequest == old(currentRequest) &&
                         sent == None) &&
        (i == |Pages| ==>
           !local &&
           content == (if cm.Replied? then RequestSentText(pageNum) else "") &&
           currentRequest == (if cm.DialFailed? then old(currentRequest)
                              else Some(Request(pageNum, Id, 0, READ, ""))) &&
           sent == (if cm.DialFailed? then None
                    else Some(Envelope(currentCM, ReadRequestArgs(pageNum, Id, 0)))))
    {
      var k := 0;
      while k < |Pages|
        invariant 0 <= k <= FirstReadable(Pages, pageNum)
      {
        var page := Pages[k];
        if page.PageNum == pageNum && (page.Access == READ || page.Access == WRITE) {
          return true, page.Content, None;
        }
        k := k + 1;
      }

      var err;
      sent, err := ReadRequestFromCM(pageNum, cm);
      if err != Pass {
        return false, "", sent;
      }
      return false, RequestSentText(pageNum), sent;
    }

    /**
     * Downgrades the first cached page for the forwarded page number to READ
     * (the source dereferences the search result unchecked, so that page
     * must exist), then sends the page to the requester.  The access is
     * updated through the page reference, so every cache entry that refers
     * to the same Page object sees it; nothing else changes.
     */
    method ReadForward(args: ReadForwardArgs, requester: Rpc<SendPageResponse>)
      returns (sent: Option<Envelope<SendPageArgs>>, err: Outcome)
      requires FirstPage(Pages, args.PageNum) < |Pages|
      modifies Pages[FirstPage(Pages, args.PageNum)]
      ensures Pages == old(Pages)
      ensures var page := Pages[old(FirstPage(Pages, args.PageNum))];
        page.Access == READ && page.Content == old(page.Content) && page.PageNum == old(page.PageNum) &&
        (forall k :: 0 <= k < |Pages| && Pages[k] != page ==>
           Pages[k].Access == old(Pages[k].Access) && Pages[k].Content == old(Pages[k].Content)) &&
        sent == (if requester.DialFailed? then None
                 else Some(Envelope(args.RequesterId, SendPageArgs(page.PageNum, page.Content, Id))))
      ensures err == Pass <==> requester.Replied?
    {
      var requestedPage: Page? := null;
      var k := 0;
      while k < |Pages|
        invariant 0 <= k <= FirstPage(Pages, args.PageNum)
        invariant requestedPage == null
      {
        if Pages[k].PageNum == args.PageNum {
          requestedPage := Pages[k];
          break;
        }
        k := k + 1;
      }

      requestedPage.Access := READ;

      if requester.DialFailed? {
        return None, Fail(Transport);
      }
      sent := Some(Envelope(args.RequesterId, SendPageArgs(requestedPage.PageNum, requestedPage.Content, Id)));
      err := CallOutcome(requester);
    }

    /**
     * Sends the request's page, requester and clock to the manager; succeeds
     * only when the manager replies with Confirm set.
     */
    method SendReadConfirmation(request: Request, cm: Rpc<ReadConfirmResponse>)
      returns (sent: Option<Envelope<ReadConfirmArgs>>, err: Outcome)
      ensures sent == if cm.DialFailed? then None
                      else Some(Envelope(currentCM, ReadConfirmArgs(request.PageNum, request.RequesterId, request.Clock)))
      ensures err == Pass <==> cm == Replied(ReadConfirmResponse(true))
      ensures cm == Replied(ReadConfirmResponse(false)) ==> err == Fail(ReadConfirmationFailed)
    {
      if cm.DialFailed? {
        return None, Fail(Transport);
      }
      sent := Some(Envelope(currentCM, ReadConfirmArgs(request.PageNum, request.RequesterId, request.Clock)));
      if !cm.Replied? {
        return sent, Fail(Transport);
      }
      if !cm.reply.Confirm {
        return sent, Fail(ReadConfirmationFailed);
      }
      err := Pass;
    }

    /**
     * Accepts a delivered page when its number matches the pending request
     * (the source dereferences the pending request unchecked, so there must
     * be one): appends a new READ page after the existing entries, which are
     * kept, sends the read confirmation, and clears the pending request
     * whatever the confirmation's outcome.  `confirmed` is that outcome,
     * which the source discards (None when no confirmation was attempted).
     */
    method HandleSendPage(args: SendPageArgs, cm: Rpc<ReadConfirmResponse>)
      returns (confirm: Option<Envelope<ReadConfirmArgs>>, confirmed: Option<Outcome>, err: Outcome)
      requires currentRequest.Some?
      modifies this`Pages, this`currentRequest
      ensures var req := old(currentRequest).value;
        if args.PageNum != req.PageNum then
          err == Fail(PageMismatch) && Pages == old(Pages) &&
          currentRequest == old(currentRequest) && confirm == None && confirmed == None
        else
          err == Pass && currentRequest == None &&
          |Pages| == |old(Pages)| + 1 && Pages[..|old(Pages)|] == old(Pages) &&
          fresh(Pages[|old(Pages)|]) &&
          Pages[|old(Pages)|].PageNum == args.PageNum &&
          Pages[|old(Pages)|].Content == args.Content &&
          Pages[|old(Pages)|].Access == READ &&
          FirstReadable(Pages, args.PageNum) ==
            (if old(FirstReadable(Pages, args.PageNum)) < |old(Pages)|
             then old(FirstReadable(Pages, args.PageNum)) else |old(Pages)|) &&
          confirm == (if cm.DialFailed? then None
                      else Some(Envelope(currentCM, ReadConfirmArgs(req.PageNum, req.RequesterId, req.Clock)))) &&
          confirmed.Some? &&
          (confirmed.value == Pass <==> cm == Replied(ReadConfirmResponse(true))) &&
          (cm == Replied(ReadConfirmResponse(false)) ==> confirmed.value == Fail(ReadConfirmationFailed))
    {
      if currentRequest.value.PageNum != args.PageNum {
        return None, None, Fail(PageMismatch);
      }

      var newPage := new Page(args.PageNum, args.Content, READ);
      ghost var before := Pages;
      Pages := Pages + [newPage];
      FirstReadableAfterAppend(before, newPage, args.PageNum);

      var confirmErr;
      confirm, confirmErr := SendReadConfirmation(currentRequest.value, cm);
      confirmed := Some(confirmErr);
      currentRequest := None;
      err := Pass;
    }

    /** The SendPage RPC: HandleSendPage's effect, and always success. */
    method SendPage(args: SendPageArgs, cm: Rpc<ReadConfirmResponse>)
      returns (confirm: Option<Envelope<ReadConfirmArgs>>, confirmed: Option<Outcome>, err: Outcome)
      requires currentRequest.Some?
      modifies this`Pages, this`currentRequest
      ensures err == Pass
      ensures var req := old(currentRequest).value;
        if args.PageNum != req.PageNum then
          Pages == old(Pages) && currentRequest == old(currentRequest) && confirm == None && confirmed == None
        else
          currentRequest == None &&
          |Pages| == |old(Pages)| + 1 && Pages[..|old(Pages)|] == old(Pages) &&
          fresh(Pages[|old(Pages)|]) &&
          Pages[|old(Pages)|].PageNum == args.PageNum &&
          Pages[|old(Pages)|].Content == args.Content &&
          Pages[|old(Pages)|].Access == READ &&
          FirstReadable(Pages, args.PageNum) ==
            (if old(FirstReadable(Pages, args.PageNum)) < |old(Pages)|
             then old(FirstReadable(Pages, args.PageNum)) else |old(Pages)|) &&
          confirm == (if cm.DialFailed? then None
                      else Some(Envelope(currentCM, ReadConfirmArgs(req.PageNum, req.RequesterId, req.Clock)))) &&
          confirmed.Some? &&
          (confirmed.value == Pass <==> cm == Replied(ReadConfirmResponse(true))) &&
          (cm == Replied(ReadConfirmResponse(false)) ==> confirmed.value == Fail(ReadConfirmationFailed))
    {
      var handleErr;
      confirm, confirmed, handleErr := HandleSendPage(args, cm);
      err := Pass;
    }
  }
}
