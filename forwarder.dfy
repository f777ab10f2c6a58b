/**
 * The forwarding path of main.go: one exchange with the upstream resolver per
 * query, whose reply (one read into a 2048-byte buffer) is relayed to the
 * client; any failure on the way means the client gets nothing.
 */
module Forwarder {
  import opened GoTypes
  import GoFmt

  /** Capacity of the buffer the upstream's reply is read into. */
  const REPLY_BUFFER_SIZE := 2048

  /** How one exchange with the upstream ends: the stage that failed, or the datagram it sent back. */
  datatype Exchange = DialFailed | WriteFailed | ReadFailed | Received(datagram: seq<Byte>)

  /** The upstream resolver and the network to it, as a function of the payload written to it. */
  type Upstream = seq<Byte> -> Exchange

  /** What is written back to the client once the exchange ended as x. */
  function Relay(x: Exchange): (r: Option<seq<Byte>>)
    ensures r.None? <==> !x.Received?
    ensures r.Some? ==> |r.value| <= REPLY_BUFFER_SIZE && r.value <= x.datagram
    ensures r.Some? ==>
      |r.value| == if |x.datagram| <= REPLY_BUFFER_SIZE then |x.datagram| else REPLY_BUFFER_SIZE
    ensures r.Some? && |x.datagram| <= REPLY_BUFFER_SIZE ==> r.value == x.datagram
  {
    match x
    case Received(d) => Some(Truncate(d, REPLY_BUFFER_SIZE))
    case _ => None
  }

  /** `forward` with the query written upstream as it was received. */
  function Forward(query: seq<Byte>, upstream: Upstream): (r: Option<seq<Byte>>)
    ensures r.None? <==> !upstream(query).Received?
    ensures r.Some? ==> r.value <= upstream(query).datagram
    ensures r.Some? ==>
      var d := upstream(query).datagram;
      |r.value| == if |d| <= REPLY_BUFFER_SIZE then |d| else REPLY_BUFFER_SIZE
  {
    Relay(upstream(query))
  }

  /** `forward` as main.go writes it: the query is the format of fmt.Fprintf. */
  function ForwardAsWritten(query: seq<Byte>, upstream: Upstream): (r: Option<seq<Byte>>)
    ensures r.None? <==> !upstream(GoFmt.Printed(query)).Received?
    ensures r.Some? ==> r.value <= upstream(GoFmt.Printed(query)).datagram
    ensures r.Some? ==>
      var d := upstream(GoFmt.Printed(query)).datagram;
      |r.value| == if |d| <= REPLY_BUFFER_SIZE then |d| else REPLY_BUFFER_SIZE
  {
    Relay(upstream(GoFmt.Printed(query)))
  }

  /** Without a '%' byte in the query the two agree, whatever the upstream does. */
  lemma AsWrittenAgreesWithoutPercent(query: seq<Byte>, upstream: Upstream)
    requires forall k :: 0 <= k < |query| ==> query[k] != GoFmt.PERCENT
    ensures ForwardAsWritten(query, upstream) == Forward(query, upstream)
  {
    GoFmt.NoPercentPrintsVerbatim(query);
  }

  /**
   * A query whose transaction id is 0x1225 ('%' as its second byte, followed by
   * the flags byte 0x01 of an ordinary recursive query) is not what reaches the
   * upstream as written: an upstream that answers only the query the client
   * sent gives the client a reply through Forward and none through
   * ForwardAsWritten.
   */
  lemma PercentInIdLosesReply(rest: seq<Byte>)
    ensures var query := [0x12, 0x25, 0x01] + rest;
            GoFmt.Printed(query) != query
            && exists upstream: Upstream ::
                 Forward(query, upstream).Some? && ForwardAsWritten(query, upstream).None?
  {
    var query := [0x12, 0x25, 0x01] + rest;
    GoFmt.PercentAltersPayload(query, 1);
    AlteredPayloadLosesReply(query);
  }

  /**
   * When fmt alters the query, an upstream that answers only the query the
   * client sent answers the corrected forward and not the as-written one.
   */
  lemma AlteredPayloadLosesReply(query: seq<Byte>)
    requires GoFmt.Printed(query) != query
    ensures exists upstream: Upstream ::
              Forward(query, upstream).Some? && ForwardAsWritten(query, upstream).None?
  {
    var echo: Upstream := (payload: seq<Byte>) => if payload == query then Received(query) else ReadFailed;
    assert echo(GoFmt.Printed(query)) == ReadFailed;
    assert Forward(query, echo).Some? && ForwardAsWritten(query, echo).None?;
  }
}
