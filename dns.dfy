/**
 * The parsed DNS message (gopacket's layers.DNS) and the local answer that
 * main.go builds by mutating it in place.
 */
module Dns {
  import opened GoTypes

  /** TYPE A, a host address (section 3.2.2 of RFC 1035). */
  const TYPE_A: Uint16 := 1
  /** TYPE AAAA, an IPv6 host address (section 2.1 of RFC 3596). */
  const TYPE_AAAA: Uint16 := 28
  /** OPCODE 0, a standard query (section 4.1.1 of RFC 1035). */
  const OPCODE_QUERY: Byte := 0
  /** RCODE 0, no error condition (section 4.1.1 of RFC 1035). */
  const RCODE_NO_ERROR: Byte := 0

  /** The suffix `answer` appends to the configured address before parsing it as a CIDR. */
  const CIDR_SUFFIX: seq<Byte> := Ascii("/24")

  datatype Question = Question(name: seq<Byte>, qtype: Uint16, qclass: Uint16)

  /** A resource record; of the RDATA views only the address one is modelled. */
  datatype ResourceRecord = ResourceRecord(
    name: seq<Byte>, rrtype: Uint16, rrclass: Uint16, ttl: Uint32,
    dataLength: Uint16, data: seq<Byte>, ip: seq<Byte>)

  /** The value of a layers.DNS: the header fields, the four sections. */
  datatype Message = Message(
    id: Uint16, qr: bool, opCode: Byte, aa: bool, tc: bool, rd: bool, ra: bool,
    z: Byte, responseCode: Byte,
    qdCount: Uint16, anCount: Uint16, nsCount: Uint16, arCount: Uint16,
    questions: seq<Question>, answers: seq<ResourceRecord>,
    authorities: seq<ResourceRecord>, additionals: seq<ResourceRecord>)

  /** net.ParseCIDR, keeping only its address result; None is a parse error. */
  type CidrParser = seq<Byte> -> Option<seq<Byte>>
  /** layers.DNS.SerializeTo; None is a serialisation error. */
  type Serializer = Message -> Option<seq<Byte>>

  /** The *layers.DNS object that decoding allocates and `answer` updates field by field. */
  class Layer {
    var id: Uint16
    var qr: bool
    var opCode: Byte
    var aa: bool
    var tc: bool
    var rd: bool
    var ra: bool
    var z: Byte
    var responseCode: Byte
    var qdCount: Uint16
    var anCount: Uint16
    var nsCount: Uint16
    var arCount: Uint16
    var questions: seq<Question>
    var answers: seq<ResourceRecord>
    var authorities: seq<ResourceRecord>
    var additionals: seq<ResourceRecord>

    /** The message the object currently holds. */
    function Value(): Message
      reads this
    {
      Message(id, qr, opCode, aa, tc, rd, ra, z, responseCode,
              qdCount, anCount, nsCount, arCount,
              questions, answers, authorities, additionals)
    }

    /** A layer holding the decoded message m. */
    constructor (m: Message)
      ensures Value() == m
    {
      id, qr, opCode, aa, tc, rd, ra := m.id, m.qr, m.opCode, m.aa, m.tc, m.rd, m.ra;
      z, responseCode := m.z, m.responseCode;
      qdCount, anCount, nsCount, arCount := m.qdCount, m.anCount, m.nsCount, m.arCount;
      questions, answers := m.questions, m.answers;
      authorities, additionals := m.authorities, m.additionals;
    }
  }

  /** The record `answer` puts in the answer section: TTL, data and data length stay zero. */
  function AddressRecord(q: Question, ip: seq<Byte>): ResourceRecord {
    ResourceRecord(q.name, q.qtype, q.qclass, 0, 0, [], ip)
  }

  /** The message `answer` leaves behind once the address ip has been parsed. */
  function Answered(m: Message, ip: seq<Byte>): (r: Message)
    requires |m.questions| > 0
    ensures IsLocalAnswer(m, r, ip)
  {
    var answers := if m.questions[0].qtype == TYPE_A then [AddressRecord(m.questions[0], ip)] else [];
    m.(responseCode := RCODE_NO_ERROR, answers := answers, qr := true,
       anCount := ToUint16(|answers|), opCode := OPCODE_QUERY, ra := true)
  }

  /**
   * r is the local answer to query q with address ip: a standard-query response
   * with no error and recursion available, whose answer count is the size of its
   * answer section; one address record for q's first question when that asks
   * for TYPE A and none otherwise; every other field as q had it.
   */
  predicate IsLocalAnswer(q: Message, r: Message, ip: seq<Byte>)
    requires |q.questions| > 0
  {
    var q0 := q.questions[0];
    && r.qr && r.ra && r.opCode == OPCODE_QUERY && r.responseCode == RCODE_NO_ERROR
    && r.anCount == |r.answers|
    && (q0.qtype == TYPE_A ==>
          && |r.answers| == 1
          && r.answers[0].name == q0.name && r.answers[0].rrtype == q0.qtype
          && r.answers[0].rrclass == q0.qclass && r.answers[0].ip == ip
          && r.answers[0].ttl == 0 && r.answers[0].dataLength == 0 && r.answers[0].data == [])
    && (q0.qtype != TYPE_A ==> r.answers == [])
    && r.id == q.id && r.aa == q.aa && r.tc == q.tc && r.rd == q.rd && r.z == q.z
    && r.qdCount == q.qdCount && r.nsCount == q.nsCount && r.arCount == q.arCount
    && r.questions == q.questions
    && r.authorities == q.authorities && r.additionals == q.additionals
  }

  lemma LocalAnswerIsUnique(m: Message, r: Message, ip: seq<Byte>)
    requires |m.questions| > 0
    requires IsLocalAnswer(m, r, ip)
    ensures r == Answered(m, ip)
  {
    if m.questions[0].qtype == TYPE_A {
      assert r.answers == [AddressRecord(m.questions[0], ip)];
    }
  }

  /** Answering a reply again with the same address changes nothing. */
  lemma AnswerIsIdempotent(m: Message, ip: seq<Byte>)
    requires |m.questions| > 0
    ensures |Answered(m, ip).questions| > 0
    ensures Answered(Answered(m, ip), ip) == Answered(m, ip)
  {
  }

  /**
   * The local answer does not depend on the fields `answer` overwrites: two
   * queries that agree elsewhere get the same reply.
   */
  lemma AnswerIgnoresOverwrittenFields(m: Message, m': Message, ip: seq<Byte>)
    requires |m.questions| > 0
    requires m' == m.(qr := m'.qr, ra := m'.ra, opCode := m'.opCode, responseCode := m'.responseCode,
                      anCount := m'.anCount, answers := m'.answers)
    ensures Answered(m', ip) == Answered(m, ip)
  {
  }

  /**
   * `answer`: parse the override address; on failure return before any
   * mutation, else turn the layer into the local answer and serialise it.
   * `sent` is what is written back to the client (a write error is only logged).
   */
  method Answer(layer: Layer, ip: seq<Byte>, parseCidr: CidrParser, serialize: Serializer)
    returns (sent: Option<seq<Byte>>)
    requires |layer.questions| > 0
    modifies layer
    ensures parseCidr(ip + CIDR_SUFFIX).None? ==> sent.None? && unchanged(layer)
    ensures parseCidr(ip + CIDR_SUFFIX).Some? ==>
      && layer.Value() == Answered(old(layer.Value()), parseCidr(ip + CIDR_SUFFIX).value)
      && sent == serialize(layer.Value())
  {
    var parsed := parseCidr(ip + CIDR_SUFFIX);
    if parsed.None? {
      return None;
    }
    MakeResponse(layer, parsed.value);
    sent := serialize(layer.Value());
  }

  /** The in-place part of `answer`, after the address parsed to addr. */
  method MakeResponse(layer: Layer, addr: seq<Byte>)
    requires |layer.questions| > 0
    modifies layer
    ensures layer.Value() == Answered(old(layer.Value()), addr)
  {
    layer.responseCode := RCODE_NO_ERROR;
    layer.answers := [];
    if layer.questions[0].qtype == TYPE_A {
      layer.answers := [ResourceRecord(layer.questions[0].name, layer.questions[0].qtype,
                                       layer.questions[0].qclass, 0, 0, [], addr)];
    }
    layer.qr := true;
    layer.anCount := ToUint16(|layer.answers|);
    layer.opCode := OPCODE_QUERY;
    layer.ra := true;
  }
}
