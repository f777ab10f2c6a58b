/**
 * `handle` in main.go: what happens to one received datagram. It is dropped
 * when it does not decode as DNS, answered locally when its first question
 * names an override entry and asks for an A or AAAA record, and forwarded
 * upstream, as received, otherwise.
 */
module Handler {
  import opened GoTypes
  import opened Dns
  import Forwarder
  import GoFmt

  /** The override table: a name, as the bytes of the question, to the configured address text. */
  type Records = map<seq<Byte>, seq<Byte>>
  /** gopacket's decoding of a datagram into a DNS layer; None when there is none. */
  type Decoder = seq<Byte> -> Option<Message>

  predicate IsAddressType(t: Uint16) {
    t == TYPE_A || t == TYPE_AAAA
  }

  /** The first question names an override entry, byte for byte, and asks for an address record. */
  predicate SelfAnswerable(m: Message, records: Records) {
    |m.questions| > 0 && m.questions[0].name in records && IsAddressType(m.questions[0].qtype)
  }

  /** The branch `handle` takes; Panic is the index-out-of-range run-time error. */
  datatype Action = Drop | SelfAnswer(ip: seq<Byte>) | Forward | Panic

  /**
   * The branch `handle` takes for a decoded datagram, a message without a
   * question being forwarded like any other query this proxy does not answer.
   */
  function Classify(decoded: Option<Message>, records: Records): (a: Action)
    ensures a != Panic
    ensures a == Drop <==> decoded.None?
    ensures a.SelfAnswer? <==> decoded.Some? && SelfAnswerable(decoded.value, records)
    ensures a.SelfAnswer? ==> a.ip == records[decoded.value.questions[0].name]
    ensures a == Forward <==> decoded.Some? && !SelfAnswerable(decoded.value, records)
  {
    match decoded
    case None => Drop
    case Some(m) =>
      if |m.questions| > 0 then
        var name := m.questions[0].name;
        if name in records && IsAddressType(m.questions[0].qtype)
        then SelfAnswer(records[name])
        else Forward
      else Forward
  }

  /** The branch `handle` takes as main.go writes it: Questions[0] is read unguarded. */
  function ClassifyAsWritten(decoded: Option<Message>, records: Records): (a: Action)
    ensures a == Panic <==> decoded.Some? && |decoded.value.questions| == 0
    ensures a != Panic ==> a == Classify(decoded, records)
  {
    match decoded
    case None => Drop
    case Some(m) =>
      if |m.questions| == 0 then Panic
      else Classify(decoded, records)
  }

  /**
   * A DNS message with no question (a bare 12-byte header with QDCOUNT 0
   * decodes as one) panics the handler as written; an unrecovered panic in
   * a goroutine ends the whole process.
   */
  lemma QuestionlessQueryPanics(m: Message, records: Records)
    requires |m.questions| == 0
    ensures ClassifyAsWritten(Some(m), records) == Panic
    ensures Classify(Some(m), records) == Forward
  {
  }

  /** What handling one datagram leads to. */
  datatype Outcome =
    | Dropped                       // not DNS: nothing is sent anywhere
    | Forwarded(query: seq<Byte>)   // these bytes go to the forwarder
    | Replied(response: seq<Byte>)  // these bytes are written back to the client
    | Unanswered                    // the address or the serialisation failed: nothing is sent

  /** The outcome of handling the datagram bytes. */
  function Handled(bytes: seq<Byte>, records: Records, decode: Decoder,
                   parseCidr: CidrParser, serialize: Serializer): (o: Outcome)
    ensures o == Dropped <==> decode(bytes).None?
    ensures o.Forwarded? <==> decode(bytes).Some? && !SelfAnswerable(decode(bytes).value, records)
    ensures o.Forwarded? ==> o.query == bytes
    ensures o.Replied? || o == Unanswered <==>
      decode(bytes).Some? && SelfAnswerable(decode(bytes).value, records)
    ensures o.Replied? ==>
      var m := decode(bytes).value;
      var parsed := parseCidr(records[m.questions[0].name] + CIDR_SUFFIX);
      parsed.Some? && serialize(Answered(m, parsed.value)) == Some(o.response)
    ensures o == Unanswered ==>
      var m := decode(bytes).value;
      var parsed := parseCidr(records[m.questions[0].name] + CIDR_SUFFIX);
      parsed.None? || serialize(Answered(m, parsed.value)).None?
  {
    match Classify(decode(bytes), records)
    case Drop => Dropped
    case Forward => Forwarded(bytes)
    case SelfAnswer(ip) =>
      var m := decode(bytes).value;
      match parseCidr(ip + CIDR_SUFFIX)
      case None => Unanswered
      case Some(addr) =>
        match serialize(Answered(m, addr))
        case None => Unanswered
        case Some(response) => Replied(response)
  }

  /**
   * `handle`: decode the datagram into a fresh layer, look the first question
   * up in the override table, and either answer in place or forward.
   */
  method Handle(bytes: seq<Byte>, records: Records, decode: Decoder,
                parseCidr: CidrParser, serialize: Serializer) returns (o: Outcome)
    ensures o == Handled(bytes, records, decode, parseCidr, serialize)
  {
    var decoded := decode(bytes);
    if decoded.None? {
      return Dropped;
    }
    var layer := new Layer(decoded.value);
    if |layer.questions| > 0 {
      var reqname := layer.questions[0].name;
      if reqname in records {
        if IsAddressType(layer.questions[0].qtype) {
          var sent := Answer(layer, records[reqname], parseCidr, serialize);
          return if sent.Some? then Replied(sent.value) else Unanswered;
        }
      }
    }
    return Forwarded(bytes);
  }

  /**
   * What the client finally receives for outcome o, a forwarded query being
   * written upstream as it was received (the corrected `Forwarder.Forward`).
   */
  function ClientReply(o: Outcome, upstream: Forwarder.Upstream): (r: Option<seq<Byte>>)
    ensures (o == Dropped || o == Unanswered) ==> r.None?
    ensures o.Replied? ==> r == Some(o.response)
    ensures o.Forwarded? ==> (r.None? <==> !upstream(o.query).Received?)
    ensures o.Forwarded? && r.Some? ==>
      var d := upstream(o.query).datagram;
      && r.value <= d
      && |r.value| == if |d| <= Forwarder.REPLY_BUFFER_SIZE then |d| else Forwarder.REPLY_BUFFER_SIZE
  {
    match o
    case Dropped => None
    case Unanswered => None
    case Replied(response) => Some(response)
    case Forwarded(query) => Forwarder.Forward(query, upstream)
  }

  /**
   * What the client finally receives for outcome o when the forward step is
   * the one main.go writes: a forwarded query reaches the upstream as
   * fmt.Fprintf prints it. The outcome itself comes from the corrected
   * classification, so a question-less message counts as forwarded here.
   */
  function ClientReplyAsWritten(o: Outcome, upstream: Forwarder.Upstream): (r: Option<seq<Byte>>)
    ensures (o == Dropped || o == Unanswered) ==> r.None?
    ensures o.Replied? ==> r == Some(o.response)
    ensures o.Forwarded? ==> (r.None? <==> !upstream(GoFmt.Printed(o.query)).Received?)
    ensures o.Forwarded? && r.Some? ==>
      var d := upstream(GoFmt.Printed(o.query)).datagram;
      && r.value <= d
      && |r.value| == if |d| <= Forwarder.REPLY_BUFFER_SIZE then |d| else Forwarder.REPLY_BUFFER_SIZE
  {
    match o
    case Dropped => None
    case Unanswered => None
    case Replied(response) => Some(response)
    case Forwarded(query) => Forwarder.ForwardAsWritten(query, upstream)
  }

  /**
   * A datagram that does not decode gets no reply. A forwarded one gets the
   * leading bytes of what the upstream sent back: for exactly the received
   * bytes when corrected, for fmt's rendering of them as written. Every
   * other outcome reaches the client the same way in both.
   */
  lemma ClientReplyFollowsOutcome(bytes: seq<Byte>, records: Records, decode: Decoder,
                                  parseCidr: CidrParser, serialize: Serializer,
                                  upstream: Forwarder.Upstream)
    ensures var o := Handled(bytes, records, decode, parseCidr, serialize);
            var r := ClientReply(o, upstream);
            var w := ClientReplyAsWritten(o, upstream);
            && (decode(bytes).None? ==> r.None? && w.None?)
            && (o.Forwarded? && r.Some? ==>
                  upstream(bytes).Received? && r.value <= upstream(bytes).datagram)
            && (o.Forwarded? && w.Some? ==>
                  upstream(GoFmt.Printed(bytes)).Received? && w.value <= upstream(GoFmt.Printed(bytes)).datagram)
            && (!o.Forwarded? ==> r == w)
  {
  }

  /** The override table {"example.local": "10.0.0.5"}. */
  const EXAMPLE_RECORDS: Records := map[Ascii("example.local") := Ascii("10.0.0.5")]

  /**
   * With that table, an A or AAAA query for example.local is answered with the
   * address text "10.0.0.5", and the parser is given "10.0.0.5/24": the query
   * goes unanswered when that does not parse, and otherwise gets the
   * serialised local answer, with one answer record for A and none for AAAA.
   */
  lemma ExampleLocalIsAnswered(bytes: seq<Byte>, m: Message, decode: Decoder,
                               parseCidr: CidrParser, serialize: Serializer)
    requires decode(bytes) == Some(m)
    requires |m.questions| > 0 && m.questions[0].name == Ascii("example.local")
    requires IsAddressType(m.questions[0].qtype)
    ensures Classify(Some(m), EXAMPLE_RECORDS) == SelfAnswer(Ascii("10.0.0.5"))
    ensures parseCidr(Ascii("10.0.0.5/24")).None? ==>
      Handled(bytes, EXAMPLE_RECORDS, decode, parseCidr, serialize) == Unanswered
    ensures parseCidr(Ascii("10.0.0.5/24")).Some? ==>
      var answered := Answered(m, parseCidr(Ascii("10.0.0.5/24")).value);
      && |answered.answers| == (if m.questions[0].qtype == TYPE_A then 1 else 0)
      && Handled(bytes, EXAMPLE_RECORDS, decode, parseCidr, serialize) ==
           (if serialize(answered).Some? then Replied(serialize(answered).value) else Unanswered)
  {
    assert Ascii("10.0.0.5") + CIDR_SUFFIX == Ascii("10.0.0.5/24");
  }

  /** Names are matched byte for byte: case and a trailing dot matter. */
  lemma NamesMatchLiterally(m: Message)
    requires |m.questions| > 0
    requires m.questions[0].name in {Ascii("example.local."), Ascii("EXAMPLE.local"), Ascii("other.local")}
    ensures Classify(Some(m), EXAMPLE_RECORDS) == Forward
  {
    var name := m.questions[0].name;
    if name == Ascii("EXAMPLE.local") {
      assert name[0] != Ascii("example.local")[0];
    }
    assert name !in EXAMPLE_RECORDS;
  }
}
