# IVY shared virtual memory: central manager and node, as written

This project models the core of a small IVY-style distributed shared memory
in Go (package `ivy`). A single **central manager** keeps a ledger of page
records. Each record holds a page number, the owning node and a copy-set.
The manager also has one slot for the request it is currently handling.
Each **node** keeps a cache of pages (page number, content, access right)
and a slot for the request it has sent to the manager.

The model covers the read path as the code implements it:

- a node's cache lookup, and its read request to the manager on a miss;
- the manager's busy check, request installation and owner lookup;
- the forward to the owner;
- the owner's downgrade to READ and its page delivery to the requester;
- the requester's caching of the delivered page and its read confirmation;
- the manager's confirm check.

It also covers the manager's write-request lookup and the small record
helpers (`AddCopy` and the two `contains` scans).

Modelling choices:

- `CentralManager`, `Node`, `Page` and `PageRecord` are classes, because the
  source updates their fields in place. The node's cache is a sequence of
  references to `Page` objects, as the source's `[]*Page` is. So the
  downgrade in `ReadForward` is visible through every entry that refers to
  the same object.
- Each handler is one atomic step of the model. The source is not that
  atomic. The manager takes its lock inside `handleReadRequest`,
  `ReadConfirm` and `handleWriteRequest`, but `ReadRequest` sends the
  forward after `handleReadRequest` has released the lock. The node takes
  no lock at all.
- Every outbound RPC (`rpc.Dial` followed by `client.Call`) is an input
  `Rpc<R>`: the dial failed, the call failed, or the remote side replied
  with `R`. The message a handler hands to the transport (the read
  request, the forward, the page, the confirmation) is an out-parameter,
  present exactly when the dial succeeded.
- The record tables of `ivy/records.go` are datatypes. Their `contains`
  scans are functions.
- `READ`, `WRITE` and `WRITEFORWARD` are used by the code but defined in none
  of the package's files modelled here. They are the enum `Kind`. `NONE` in `Kind` stands for
  any other access value.
- Go errors are `Outcome` (`Pass` is `nil`). Each `Error` value carries the
  source's message as a comment.
- A nil dereference in the source becomes a precondition. This applies to
  the manager's pending request in `ReadConfirm`, to the page searched for
  in `ReadForward`, and to the node's pending request in `handleSendPage`.

### Where the code departs from the intended protocol

The model follows the code, not the protocol description. These are the
places where the two differ, and each is a proved contract:

- `handleReadRequest` installs the request before it looks the page up. A
  request for an unknown page therefore fails with "page not found" but
  leaves the manager busy. `IvyScenarios.NotFoundLeavesManagerBusy` shows
  that the next request is then refused.
- The read lookup uses `-1` as its "not found" value, so a record whose
  owner is `-1` counts as missing. The write lookup uses `0`, so a page
  owned by node 0 is reported as "page not found".
- `ReadConfirm` clears the slot without comparing the clock. It does not
  add the requester to the copy-set, and it never sets the reply's
  `Confirm`. So the node's `sendReadConfirmation` never succeeds: whenever
  the manager accepts the confirm, it reports "read confirmation failed".
  `IvyScenarios.ReadFetch` derives this for one read.
- `handleWriteRequest` has no busy check and installs no request. Its
  invalidation stub sends nothing, and the copy-set is not cleared.
- `ReadRequestFromCM` installs the node's pending request once the dial
  succeeds, even if one is already pending or the call fails. A failed dial
  leaves the slot as it was. The IVY protocol expects the slot to be cleared.
- `handleSendPage` appends a new READ page instead of overwriting an
  existing entry. The next read of that page is served by the first
  readable entry, which is the new page only when no earlier readable
  entry exists (`IvyNode.FirstReadableAfterAppend`). It clears the pending
  request whatever the confirmation's outcome.

## Model

| member | source | states |
|---|---|---|
| `IvyCmRecords.PageRecord.AddCopy` | ivy/cmrecords.go:9-11 | the copy-set grows by exactly one, with `nodeId` last and the earlier ids kept in order; an id already present is counted once more (no deduplication); page number and owner are unchanged |
| `IvyRecords.ManagerRecords.Contains` | ivy/records.go:33-42 | true iff some record has the page number; false on an empty table |
| `IvyRecords.NodeRecords.Contains` | ivy/records.go:44-53 | true iff some record has the page number; false on an empty table |
| `IvyRecords.ManagerContainsOnlyComparesPageNum` | ivy/records.go:37 | two manager tables whose page numbers agree position by position give the same answer, whatever their owners and copy-sets |
| `IvyRecords.NodeContainsOnlyComparesPageNum` | ivy/records.go:48 | two node tables whose page numbers agree position by position give the same answer, whatever their access rights |
| `IvyCm.FirstRecord` | ivy/cm.go:33-38 | the index where the ledger scan stops: the record there has the page number, no earlier one does, and the index is the table's length when none does |
| `IvyCm.LookupOwner` | ivy/cm.go:32-41 | the owner the lookup loops of `handleReadRequest` and `handleWriteRequest` leave behind is either the not-found value or the `Owner` of some record for the page |
| `IvyCm.LookupOwnerFound` | ivy/cm.go:32-38 | when a record has the page number, the looked-up owner is the `Owner` of the first such record |
| `IvyCm.LookupOwnerMissing` | ivy/cm.go:39-41 | when no record has the page number, the lookup yields the loop's initial value (the not-found sentinel) |
| `IvyCm.CentralManager.constructor` | ivy/cm.go:126-133 | a new manager is idle and holds the configured page records |
| `IvyCm.CentralManager.HandleReadRequest` | ivy/cm.go:20-44 | busy: returns `(-1, AlreadyHandling)` and changes nothing; idle: installs `{PageNum, RequesterId, Clock, READ}` from the arguments, then returns the first matching record's owner, or `(-1, PageNotFound)` with the request still installed; the ledger is never changed |
| `IvyCm.CentralManager.SendReadForward` | ivy/cm.go:46-65 | after a successful dial, sends `ReadForwardArgs` with the request's page, requester and clock to the owner; succeeds iff the call replies |
| `IvyCm.CentralManager.ReadRequest` | ivy/cm.go:68-79 | fails exactly when `HandleReadRequest` would, with the same error and state; on success forwards to the looked-up owner and succeeds even when the forward fails |
| `IvyCm.CentralManager.ReadConfirm` | ivy/cm.go:81-92 | a confirm whose page or requester differs from the outstanding request gets `WrongConfirm` and leaves the slot as it is; a matching one clears the slot whatever its clock; the ledger is unchanged and the reply's `Confirm` stays false |
| `IvyCm.CentralManager.HandleWriteRequest` | ivy/cm.go:99-122 | changes no state; reports `PageNotFound` iff no record has the page or the first record's owner is 0; otherwise walks that record's copy-set in order and returns `ForwardMessage{PageNum, RequesterId, Clock, WRITEFORWARD}` |
| `IvyNode.FirstReadable` | ivy/node.go:53-57 | the index where the cache-hit scan stops: the first page with the page number and READ or WRITE access, or the cache's length when there is none |
| `IvyNode.FirstPage` | ivy/node.go:71-76 | the index where the forward's search stops: the first page with the page number, or the cache's length |
| `IvyNode.FirstReadableAfterAppend` | ivy/node.go:140-141 | after a readable page for `p` is appended, a read of `p` hits: it hits the earlier readable entry when there is one, and the appended page otherwise |
| `IvyNode.NaturalText` | ivy/node.go:64 | `%v` of a natural number: a non-empty string of decimal digits with no leading zero except for 0 itself |
| `IvyNode.NaturalTextValue` | ivy/node.go:64 | the digits `NaturalText` prints read back as the number printed |
| `IvyNode.DecimalText` | ivy/node.go:64 | `%v` of an `int`: a leading `-` exactly for negative numbers, followed by the digits of the absolute value |
| `IvyNode.RequestSentText` | ivy/node.go:64 | the `fmt.Sprintln` text: the fixed prefix, a space separating the operands, the page number in decimal, and a final newline |
| `IvyNode.Node.constructor` | ivy/node.go:156-163 | a new node has no pending request and holds the configured pages |
| `IvyNode.Node.ReadRequestFromCM` | ivy/node.go:26-48 | a failed dial returns a transport error, sends nothing and leaves the pending request as it was; otherwise sends `ReadRequestArgs{pageNum, node.Id, 0}` to the manager and installs `{pageNum, node.Id, 0, READ}`, kept even when the call then fails; succeeds iff the call replies |
| `IvyNode.Node.ReadFrom` | ivy/node.go:50-65 | a hit returns `(true, content)` of the first readable page for the number and changes nothing; a miss returns `false` with `""` when the request failed and the "request sent" text otherwise, with the pending request and the message sent as `ReadRequestFromCM` leaves them; a hit sends nothing; the cache is never changed |
| `IvyNode.Node.ReadForward` | ivy/node.go:68-101 | requires the page to be cached; sets `Access = READ` on the first page with the number and keeps its content; every page that is a different object keeps its access and content; after a successful dial sends `SendPageArgs{PageNum, Content, node.Id}` to the requester; succeeds iff the call replies |
| `IvyNode.Node.SendReadConfirmation` | ivy/node.go:103-130 | after a successful dial sends the pending request's page, requester and clock to the manager; succeeds iff the reply carries `Confirm = true`; a reply with `Confirm = false` gives "read confirmation failed" |
| `IvyNode.Node.HandleSendPage` | ivy/node.go:132-147 | a page number that differs from the pending request's gets `PageMismatch` and changes nothing; a matching one appends exactly one fresh `Page{PageNum, Content, READ}` after the intact earlier entries, so the next read of the page hits, sends the pending request's page, requester and clock as the confirmation after a successful dial, clears the pending request whatever the confirmation's outcome, and succeeds; the confirmation's outcome, which the source discards, is exposed and is success iff the manager replies with `Confirm = true` |
| `IvyNode.Node.SendPage` | ivy/node.go:150-153 | has the effect of `HandleSendPage`, including its sent confirmation and that confirmation's outcome, and always succeeds |
| `IvyScenarios.ReadFetch` | ivy/cm.go:68-92 | on the configuration of `runcm` and `runnode1`, with the manager handling the read request node 2 actually sends, node 2's read of page 1 leaves the owner with READ access and the manager idle, and node 2 then serves "Hello" from its cache; the copy-set stays empty and node 2's confirmation reports failure |
| `IvyScenarios.NotFoundLeavesManagerBusy` | ivy/cm.go:25-41 | a read request for an unknown page fails with `PageNotFound`, and the next request, for a known page, is refused with `AlreadyHandling` |

## Left out

- Network transport: `rpc.Dial`, `client.Call`, `rpc.Register`, `net.Listen` and the accept/`rpc.ServeConn` loops (`RegisterCM`, the listener in `NodeStart`). Outbound calls appear only as `Rpc<R>` outcomes, so the address tables (`nodeAddr`, `CMaddr`, `Nodeaddr`) are also left out.
- Concurrency: the manager's and the records' `sync.RWMutex` fields and the goroutines. Each handler is one atomic step of the model, which the source does not guarantee: the forward in `ReadRequest` is sent after the manager's lock is released, and `readFrom` and the node's handlers take no lock. Interleavings of handlers are not modelled.
- `IvyCm.CentralManager.ReadRequest`, `IvyNode.Node.ReadRequestFromCM`, `IvyNode.Node.ReadFrom`: in the source the forward is made outside the manager's lock, and its call chain (owner `ReadForward`, then requester `SendPage`, then manager `ReadConfirm`) runs the nested handlers on the same components before the outer calls return. The model runs these handlers as separate steps, one after another, so it does not capture the nesting or what another request could do in between.
- Logging with `fmt.Println`, and the interactive command loop of `NodeStart` (user interface only).
- `sendInvalidateMessage` returns `nil, nil` and does nothing. The model records only the node ids it is called for.
- `ivy/nodes.go` is an unfinished draft: it redeclares `Node`, uses channel fields that do not exist, and returns fixed strings.
- The write path on the node (`Write`, `WriteForward`, `Invalidate`, `WriteConfirm`), copy-set growth on confirm, and ownership transfer. The IVY protocol has them, but no code here implements them.
- The message types that no core code uses (`WriteRequestArgs`, `InvalidateArgs`, `WriteForwardArgs`, `WriteConfirmArgs`, `InvalidateMessageArgs`), and the unused `Page` struct of `ivy/records.go`.
- `learnrpc/` is an RPC tutorial. `runcm/main.go` and `runnode1/main.go` are bootstrapping; only their page configuration is used, in `IvyScenarios`.
- The package would not compile as it stands. `ReadConfirm` names an undefined `ReadConfirmReply` type, `Page` is declared in two files, and `runcm` passes `[]*PageRecord` where `[]PageRecord` is expected. The model takes the evident meaning: `ReadConfirmReply` is `ReadConfirmResponse`, and the manager's records are `PageRecord` objects.
- Integer width: the code does no arithmetic on page numbers, node ids or clocks, so Go's 64-bit `int` is modelled as an unbounded `int`.
- The `Id` and `clock` fields of the manager are kept but unused, as in the source.
