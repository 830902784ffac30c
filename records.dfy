/**
 * The record tables of ivy/records.go: a manager-side table of
 * (page, copy-set, owner) entries and a node-side table of
 * (page, access right) entries, each with a membership scan by page number.
 * The read locks that guard the scans are left out: each scan is one
 * read-only step.
 */
module IvyRecords {

  datatype ManagerRecord = ManagerRecord(pageNum: int, copySet: seq<int>, owner: int)

  datatype NodeRecord = NodeRecord(pageNum: int, accessRight: int)

  datatype ManagerRecords = ManagerRecords(Records: seq<ManagerRecord>) {

    /** Scans the records in order and stops at the first one for pageNum. */
    function Contains(pageNum: int): (b: bool)
      ensures b <==> exists i :: 0 <= i < |Records| && Records[i].pageNum == pageNum
      ensures Records == [] ==> !b
      decreases |Records|
    {
      if Records == [] then false
      else if Records[0].pageNum == pageNum then true
      else
        var rest := ManagerRecords(Records[1..]);
        var b := rest.Contains(pageNum);
        assert forall i :: 0 <= i < |rest.Records| ==> rest.Records[i] == Records[i + 1];
        b
    }
  }

  datatype NodeRecords = NodeRecords(Records: seq<NodeRecord>) {

    /** Scans the records in order and stops at the first one for pageNum. */
    function Contains(pageNum: int): (b: bool)
      ensures b <==> exists i :: 0 <= i < |Records| && Records[i].pageNum == pageNum
      ensures Records == [] ==> !b
      decreases |Records|
    {
      if Records == [] then false
      else if Records[0].pageNum == pageNum then true
      else
        var rest := NodeRecords(Records[1..]);
        var b := rest.Contains(pageNum);
        assert forall i :: 0 <= i < |rest.Records| ==> rest.Records[i] == Records[i + 1];
        b
    }
  }

  /** Two manager tables with the same page numbers, in order, answer alike. */
  lemma ManagerContainsOnlyComparesPageNum(a: ManagerRecords, b: ManagerRecords, pageNum: int)
    requires |a.Records| == |b.Records|
    requires forall i :: 0 <= i < |a.Records| ==> a.Records[i].pageNum == b.Records[i].pageNum
    ensures a.Contains(pageNum) == b.Contains(pageNum)
  {
  }

  /** Two node tables with the same page numbers, in order, answer alike. */
  lemma NodeContainsOnlyComparesPageNum(a: NodeRecords, b: NodeRecords, pageNum: int)
    requires |a.Records| == |b.Records|
    requires forall i :: 0 <= i < |a.Records| ==> a.Records[i].pageNum == b.Records[i].pageNum
    ensures a.Contains(pageNum) == b.Contains(pageNum)
  {
  }
}
