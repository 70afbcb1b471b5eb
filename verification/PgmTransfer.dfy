/** From a PGM sender to a receiver, over a network that drops packets. */
module PgmTransfers {

  import opened Options
  import opened Words
  import opened WireFormat
  import opened PgmPackets
  import opened PgmSenders
  import opened PgmReceivers

  /** Every parser the receiver creates for a sender is fed, from whatever datagrams arrive, a
      contiguous run of the sender's batch stream from the start of a batch; unless the second
      datagram to arrive is not the one after the first, and the peer was joined with the first. */
  lemma ParsersAreFedBatches(sender: PGMSender, st: State, tsi: int, arrivals: seq<Arrival>)
    requires sender.Valid() && |sender.packets| <= TWO32
    requires (st.peer.None? || st.peer.value.tsi != tsi) && (st.Joined() ==> st.feeds != [])
    requires arrivals != [] && InOrder(arrivals, sender.sent) && InOrder(arrivals, |sender.packets|)
    requires !HiddenGap(sender.packets, arrivals)
    ensures forall e :: e in Datagrams(tsi, sender.packets, arrivals) ==> Sound(e)
    ensures var after := InEventResult(st, Datagrams(tsi, sender.packets, arrivals));
      forall f :: |st.feeds| <= f < |after.feeds| ==>
        SomeRun(sender.Bytes(), sender.BatchStarts(), after.feeds[f].bytes) && after.feeds[f].options == sender.options
  {
    hide PGMSender.Valid, PGMSender.Bytes, PGMSender.BatchStarts, Packed, InOrder;
    sender.PacketsFit();
    PackedOffsets(sender.Bytes(), sender.BatchStarts(), sender.packets);
    DatagramsArePackets(st, tsi, sender.packets, arrivals);
    ParsersHaveOptions(st, tsi, sender.packets, arrivals, sender.options);
    FeedsAreContiguous(sender.Bytes(), sender.BatchStarts(), sender.packets, st, tsi, arrivals);
  }

  /** And if no datagram of a sender is lost and no parser refuses, one parser is fed all of it, from
      the first batch start in what arrives to the last byte sent. */
  lemma AllIsFed(sender: PGMSender, st: State, tsi: int, first: nat) returns (incoming: seq<Incoming>)
    requires sender.Valid() && first < sender.sent <= |sender.packets| <= TWO32
    requires (st.peer.None? || st.peer.value.tsi != tsi) && (st.Joined() ==> st.feeds != [])
    ensures incoming == Datagrams(tsi, sender.packets, Smoothly(first, sender.sent))
    ensures forall e :: e in incoming ==> Sound(e)
    ensures FedAll(sender.Bytes(), sender.BatchStarts(), sender.packets, st, InEventResult(st, incoming),
                   first, sender.sent)
  {
    hide PGMSender.Valid, PGMSender.Bytes, PGMSender.BatchStarts, FedAll, Packed, InOrder, Offsets;
    var bytes, starts, packets, all := sender.Bytes(), sender.BatchStarts(), sender.packets,
      Smoothly(first, sender.sent);
    sender.PacketsFit();
    PackedOffsets(bytes, starts, packets);
    WiderOrder(all, sender.sent, |packets|);
    DatagramsArePackets(st, tsi, packets, all);
    incoming := Datagrams(tsi, packets, all);
    NothingIsLeftOut(bytes, starts, packets, st, tsi, first, sender.sent);
  }
}
