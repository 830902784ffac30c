/**
 * The manager's per-page ledger entry (ivy/cmrecords.go): the page number,
 * the node that owns the page and the copy-set of nodes holding read copies.
 */
module IvyCmRecords {

  class PageRecord {
    var PageNum: int
    var CopySet: seq<int>
    var Owner: int

    constructor (pageNum: int, copySet: seq<int>, owner: int)
      ensures PageNum == pageNum && CopySet == copySet && Owner == owner
    {
      PageNum, CopySet, Owner := pageNum, copySet, owner;
    }

    /**
     * Appends nodeId to the copy-set in place.  There is no duplicate check:
     * an id already present is recorded once more.
     */
    method AddCopy(nodeId: int)
      modifies this`CopySet
      ensures CopySet == old(CopySet) + [nodeId]
      ensures |CopySet| == |old(CopySet)| + 1
      ensures CopySet[|CopySet| - 1] == nodeId
      ensures CopySet[..|old(CopySet)|] == old(CopySet)
      ensures multiset(CopySet)[nodeId] == multiset(old(CopySet))[nodeId] + 1
      ensures PageNum == old(PageNum) && Owner == old(Owner)
    {
      CopySet := CopySet + [nodeId];
    }
  }
}
