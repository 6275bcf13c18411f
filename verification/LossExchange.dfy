/** A loss report from end to end: the receiver's list is written into words, and the sender
    puts on its own list exactly what the words name and it has not seen acknowledged. */
module LossExchange {
  import opened SeqNo
  import opened LossNodes
  import opened LossReport
  import opened SenderModel
  import RcvLossList
  import Sender

  lemma {:induction false} TwoWordsEach(ns: seq<Range>)
    ensures |Encode(ns)| <= 2 * |ns|
  {
    if |ns| > 0 {
      TwoWordsEach(ns[..|ns| - 1]);
    }
  }

  /** The words go from one side to the other; `limit` is the room in a packet, `m` the number
      of ranges that found room. */
  method ReportLosses(list: RcvLossList.RcvLossList, sender: Sender.Sender, data: array<int>, limit: int)
    returns (ghost m: int)
    requires list.Valid() && sender.Valid() && limit <= data.Length
    requires data != list.data1 && data != list.data2 && data != list.next && data != list.prior
    requires data != sender.sndLossList.data1 && data != sender.sndLossList.data2 && data != sender.sndLossList.next
    requires {list.data1, list.data2, list.next, list.prior} !!
      {sender.sndLossList.data1, sender.sndLossList.data2, sender.sndLossList.next}
    requires forall x :: x in list.Contents() ==>
      x <= sender.st.curr && sender.st.curr - x < SEQ_NO_TH && -SEQ_NO_TH < x - sender.st.ack < SEQ_NO_TH
    modifies data, sender
    modifies sender.sndLossList, sender.sndLossList.data1, sender.sndLossList.data2, sender.sndLossList.next
    ensures sender.Valid() && sender.st == old(sender.st).(loss := sender.st.loss)
    ensures 0 <= m <= |list.nodes| && (m == |list.nodes| || 2 * m >= limit - 1)
    ensures forall x :: x in sender.st.loss <==>
      x in old(sender.st.loss) || (x >= sender.st.ack && Covers(list.nodes[..m], x))
    ensures m == |list.nodes| ==> forall x :: x in sender.st.loss <==>
      x in old(sender.st.loss) || (x >= sender.st.ack && x in list.Contents())
  {
    hide Encode, Names, Members, RcvLossList.RcvLossList.Valid, Sender.Sender.Linked, NakLoss;
    var len;
    len, m := list.GetLossArray(data, limit);
    ghost var report := list.nodes[..m];
    TwoWordsEach(report);
    ghost var loss, ack, curr := sender.st.loss, sender.st.ack, sender.st.curr;
    forall k | 0 <= k < m ensures report[k].lo <= report[k].hi <= curr && sender.Comparable(report[k]) {
      NodeInside(list, k);
    }
    NakLossExact(loss, ack, curr, report);
    DecodeEncode(report);
    sender.OnNak(data[..len], report);
    assert list.nodes[..|list.nodes|] == list.nodes;
  }

  lemma NodeInside(list: RcvLossList.RcvLossList, k: int)
    requires list.Valid() && 0 <= k < |list.nodes|
    ensures var r := list.nodes[k];
      r.lo <= r.hi && r.hi - r.lo < SEQ_NO_TH && r.lo in list.Contents() && r.hi in list.Contents()
  {
  }
}
