/** Flow identifiers and top-K table rows (platform/drivers/hal_topk_type.hpp). */
module Flows {
  const UINT64: int := 0x1_0000_0000_0000_0000

  // One of the three 64-bit fields of a flow id.
  type Word = x: int | 0 <= x < UINT64

  datatype Flow = Flow(srcIp: Word, dstIp: Word, port: Word) {
    // operator<: source address first, then destination, then port.
    predicate Less(o: Flow) {
      if srcIp == o.srcIp then
        if dstIp == o.dstIp then port < o.port else dstIp < o.dstIp
      else srcIp < o.srcIp
    }
  }

  datatype Element = Element(flowId: Flow, count: int)

  // operator< is a strict total order whose ties are exactly operator==.
  lemma LessIsStrictTotalOrder(a: Flow, b: Flow, c: Flow)
    ensures !a.Less(a)
    ensures a.Less(b) && b.Less(c) ==> a.Less(c)
    ensures a.Less(b) || b.Less(a) || a == b
    ensures !(a.Less(b) && b.Less(a))
  {
  }

  // The source address decides first, whatever the rest, then the destination, then the port.
  lemma LessIsBySource(a: Flow, b: Flow)
    ensures a.srcIp < b.srcIp ==> a.Less(b) && !b.Less(a)
    ensures a.srcIp == b.srcIp && a.dstIp < b.dstIp ==> a.Less(b) && !b.Less(a)
    ensures a.srcIp == b.srcIp && a.dstIp == b.dstIp && a.port < b.port ==> a.Less(b) && !b.Less(a)
  {
  }

  ghost predicate SortedById(t: seq<Element>) {
    forall i, j :: 0 <= i < j < |t| ==> t[i].flowId.Less(t[j].flowId)
  }

  ghost function Ids(t: seq<Element>): set<Flow> {
    set i | 0 <= i < |t| :: t[i].flowId
  }
}
