# hostsdns in Dafny

hostsdns is a DNS interception proxy. It reads DNS queries from a UDP
socket. It answers locally a query whose first question names an entry of
its override table (name to IPv4 address text) and asks for an A or AAAA
record. It forwards every other query to an upstream resolver and relays
that resolver's reply back to the client.

This project models the per-datagram part of `main.go`:

- `Handler` is `handle`. It drops a datagram that does not decode as DNS,
  answers a matching A/AAAA query locally, and forwards everything else as
  received. `Classify` is the branch taken. `Handled` is the outcome, and
  the method `Handle` reaches that outcome the way the code does: it
  allocates a fresh layer and mutates it through `Dns.Answer`.
- `Dns` holds the parsed message (gopacket's `layers.DNS`) as a value,
  `Message`, and as the mutable object `Layer`. It also holds `answer`:
  `Dns.Answer` parses the configured address and returns early on failure.
  Otherwise it updates the layer field by field (`Dns.MakeResponse`) and
  serialises it. `Answered` is the message that results.
  `IsLocalAnswer` is an independent description of that message in the
  terms of section 4.1.1 of RFC 1035: a standard-query response with
  RCODE 0 and RA set, ANCOUNT equal to the answer section's size, one A
  record for a TYPE A question (section 3.2.2 of RFC 1035) and none
  otherwise (an AAAA question, TYPE 28 of section 2.1 of RFC 3596, gets an
  empty answer section), and every other field as received.
- `Forwarder` is `forward`. One exchange with the upstream ends with
  `Exchange`: a dial, write or read failure, or the received datagram.
  A failure sends the client nothing. A reply is relayed with at most
  2048 bytes kept.
- `GoFmt` is what `fmt.Fprintf(w, format)` writes when it is given no
  operands. `forward` passes the query to it as the format.
- `GoTypes` holds the fixed-width integers, Go's `uint16` conversion,
  `Option`, and a one-read buffer truncation.

Go strings and byte slices are both `seq<Byte>`, so `string(Name)` is the
identity. The override lookup is therefore a byte-for-byte key test, with
no case folding and no trailing-dot handling (`Handler.NamesMatchLiterally`).

The foreign calls are parameters of the members that use them: gopacket
decoding (`Handler.Decoder`), `layers.DNS.SerializeTo` (`Dns.Serializer`),
`net.ParseCIDR` (`Dns.CidrParser`, keeping only its address result) and the
upstream network (`Forwarder.Upstream`). Each can fail, and a failure sends
nothing.

Two details of the code shape the model:

- `answer` appends "/24" to the configured address text (main.go:111), so
  a configured "10.0.0.5/32" reaches the parser as "10.0.0.5/32/24".
  `Dns.Answer` passes exactly `ip + "/24"` to the parser and assumes
  nothing about the result.
- A decoded message without a question panics the handler, which ends the
  process; see the first finding.

## Model

| member | source | states |
|---|---|---|
| `Handler.Classify` | main.go:66-77 | Drop iff the datagram did not decode. Self-answer iff the first question's name is a key of the table and its type is A or AAAA, with the address text that key maps to. Forward otherwise, including a matched name with another type and a message without a question. Never panics. |
| `Handler.ClassifyAsWritten` | main.go:66-69 | As written: a decoded message with no question panics (index out of range). Otherwise the same branch as `Classify`. |
| `Handler.QuestionlessQueryPanics` | main.go:66 | A message without a question panics the handler as written. The corrected classification forwards it. |
| `Handler.Handled` | main.go:56-78 | Dropped iff not DNS. Forwarded iff decoded and not self-answerable, and then with exactly the received bytes. Replied or Unanswered iff self-answerable. A reply is the serialisation of `Answered` for the parsed "ip/24" address. Unanswered means the address or the serialisation failed. |
| `Handler.Handle` | main.go:56-78 | Reaches `Handled`'s outcome by decoding into a fresh layer, checking that a question exists, doing the lookup and the type test, and calling `Dns.Answer` on the layer. |
| `Handler.ClientReply` | main.go:71-107 | Corrected: nothing reaches the client for a dropped or unanswered datagram, and a local answer reaches it as serialised. For a forwarded query, nothing iff the exchange with the query's exact bytes failed, and otherwise the first min(n, 2048) bytes of the n-byte upstream reply. |
| `Handler.ClientReplyAsWritten` | main.go:71-107 | Only the forward step as written: the upstream is given what `fmt.Fprintf` prints with the query as its format, and the client gets nothing iff that exchange failed, otherwise the first min(n, 2048) bytes of the n-byte reply. The outcome comes from the corrected classification, so a question-less message is forwarded here instead of panicking as at main.go:66. |
| `Handler.ClientReplyFollowsOutcome` | main.go:56-107 | On the corrected classification's outcome: a datagram that does not decode gets no reply either way. A forwarded one gets a prefix of the upstream's reply: to exactly the received bytes with the corrected forward, to fmt's rendering of them with the forward as written. Every other outcome reaches the client the same way in both. The as-written panic of main.go:66 is `Handler.ClassifyAsWritten`'s. |
| `Handler.ExampleLocalIsAnswered` | main.go:68-71 | With the table {example.local: 10.0.0.5}, an A or AAAA query for example.local is self-answered with "10.0.0.5". Its outcome is Unanswered when "10.0.0.5/24" does not parse, and otherwise the serialised `Answered` message for that address (Unanswered if serialisation fails), whose answer section has one record for A and none for AAAA. |
| `Handler.NamesMatchLiterally` | main.go:66-68 | "example.local.", "EXAMPLE.local" and "other.local" do not match the key example.local, so they are forwarded. |
| `Dns.Layer.constructor` | main.go:58-60 | Decoding allocates a layer that holds the decoded message. |
| `Dns.Answer` | main.go:109-147 | If the address does not parse, nothing is sent and the layer is unchanged (the parse comes before any mutation). Otherwise the layer becomes `Answered` of its old value, and what is sent is the serialisation of the new layer. |
| `Dns.MakeResponse` | main.go:117-134 | The field-by-field updates turn the layer into `Answered(old value, address)`. |
| `Dns.Answered` | main.go:117-134 | The message `answer` leaves behind meets `IsLocalAnswer`: QR and RA set, OPCODE query, RCODE no error, ANCOUNT = number of answers. One record copying the question's name, type and class with the parsed address and zero TTL/data for A; no record otherwise. ID, the other flags and counts, the question, authority and additional sections unchanged. |
| `Dns.LocalAnswerIsUnique` | main.go:117-134 | Any message meeting that description is exactly `Answered`, so the description determines everything the code sets and keeps. |
| `Dns.AnswerIsIdempotent` | main.go:117-134 | Answering an answered message again with the same address changes nothing. |
| `Dns.AnswerIgnoresOverwrittenFields` | main.go:117-134 | Two queries that differ only in the fields `answer` overwrites (QR, RA, OPCODE, RCODE, ANCOUNT, answers) get the same reply. |
| `GoTypes.ToUint16` | main.go:132 | `uint16(n)` keeps n modulo 65536 and is n itself below 65536, so ANCOUNT is the answer count (0 or 1). |
| `GoTypes.Truncate` | main.go:94-96 | One read into the 2048-byte buffer keeps a prefix of the datagram of length min(n, 2048). |
| `Forwarder.Relay` | main.go:94-106 | A dial, write or read failure sends the client nothing. Otherwise the client gets exactly the first min(n, 2048) bytes of the upstream's n-byte datagram, so the whole datagram when it fits. |
| `Forwarder.Forward` | main.go:80-107 | Corrected forward: the upstream is given exactly the query bytes. The client gets nothing iff that exchange failed, and otherwise exactly the first min(n, 2048) bytes of the n-byte reply, so the whole reply when it fits. |
| `Forwarder.ForwardAsWritten` | main.go:80-107 | As written: the upstream is given what `fmt.Fprintf` prints with the query as its format (main.go:89). Nothing is relayed iff that exchange failed, and otherwise exactly the first min(n, 2048) bytes of the n-byte reply. |
| `Forwarder.AsWrittenAgreesWithoutPercent` | main.go:89 | For a query without a '%' byte, the as-written forward and the corrected one agree for every upstream. |
| `Forwarder.PercentInIdLosesReply` | main.go:89 | A query with transaction id 0x1225 followed by flags byte 0x01 is altered on the way upstream. Some upstream then answers the corrected forward and not the as-written one. |
| `Forwarder.AlteredPayloadLosesReply` | main.go:89 | For any query that fmt alters, some upstream (one that answers only the bytes the client sent) answers the corrected forward and not the as-written one. |
| `GoFmt.Printed` | main.go:89 | What `fmt.Fprintf(client, string(bytes))` writes: the query unchanged up to its first '%', and at that position a rendering that starts with '%' (via `GoFmt.PrintFrom`, which repeats this copy-then-directive step to the end). |
| `GoFmt.PrintFrom` | main.go:89 | From a position on, the bytes up to the next '%' are copied verbatim, the whole rest when there is none, and the next written byte is that directive's '%'. |
| `GoFmt.ParseDirective` | main.go:89 | One pass of fmt's doPrintf directive loop with no operands: flags (`SkipFlags`), argNumber/parseArgNumber (`ArgNumber`, `NextRightBracket`), width and precision with parsenum's 1e6 limit and '*' giving BADWIDTH/BADPREC (`Width`, `Precision`, `ParseNum`, `ScanDigits`), and the verb decoded as utf8.DecodeRune does (`VerbAt`, `RuneLength`). Its rendering always starts with '%', printing stops only at the end of the format (NOVERB), and "%%" renders as a single '%'. |
| `GoFmt.NextPercent` | main.go:89 | The first '%' at or after a position, with no '%' before it. Fprintf copies the format verbatim up to that point. |
| `GoFmt.NoPercentPrintsVerbatim` | main.go:89 | A format with no '%' byte is written unchanged. |
| `GoFmt.PlainVerbDirective` | main.go:89 | '%' followed by a plain one-byte verb v prints "%!v(MISSING)" and resumes after v. |
| `GoFmt.PercentAltersPayload` | main.go:89 | A format whose first '%' is its last byte, or is followed by a plain verb, is not written unchanged. |

## Findings

| source | as written | input that shows it | evidently intended | confidence | as-written member | corrected member |
|---|---|---|---|---|---|---|
| main.go:66 | `layer.Questions[0]` is read without checking that there is a question | a 12-byte datagram whose header has QDCOUNT 0 (for example twelve zero bytes) decodes as a DNS layer with no questions. Indexing it panics in the handler's goroutine, and that ends the whole process (`Handler.QuestionlessQueryPanics`) | a query the proxy cannot answer is forwarded (or dropped) and never stops the service | not executed; high | `Handler.ClassifyAsWritten` | `Handler.Classify` |
| main.go:89 | `fmt.Fprintf(client, string(bytes))` uses the received query as a format string | a query with transaction id 0x1225 (bytes 0x12 0x25, then flags byte 0x01). Its bytes 0x25 0x01 are sent upstream as "%!\x01(MISSING)" (`Forwarder.PercentInIdLosesReply`, `GoFmt.PercentAltersPayload`). The same happens for any query whose first '%' byte is its last byte or is followed by a plain verb byte (`GoFmt.PercentAltersPayload`). A '%' elsewhere, in the id, a length byte or a name, goes through the same directive parser, but the model proves a change only for those two cases | the query bytes are written upstream unmodified (a plain `Write` of the bytes) | not executed; high | `Forwarder.ForwardAsWritten` | `Forwarder.Forward` |

`Handler.Handle`, `Handler.Handled` and `Handler.ClientReply` use the corrected members. `Handler.ClientReplyAsWritten` is the client's reply with the forward as written, and `Handler.ClientReplyFollowsOutcome` states both.

## Left out

- Configuration loading (main.go:149-173): flag parsing, the file read and JSON decoding are I/O. The override table is the parameter `records`.
- The listen and read loop and the goroutine per datagram (main.go:27-54): socket I/O and concurrency. Each datagram it hands over holds at most 2048 bytes (main.go:44, main.go:52). `Handle` does not rely on that bound.
- The network side of `forward` (main.go:82-106): dialing, writing and reading are the `Forwarder.Upstream` parameter. The code sets no deadline, so an upstream that never answers blocks that goroutine forever. `Forwarder.Upstream` always returns an `Exchange`, so the model folds such a hang into "no reply" (`ReadFailed`). An error writing back to the client is only logged in the code, so the model treats the relayed bytes as the reply.
- gopacket decoding and `SerializeTo` (main.go:58-60, main.go:138-142) are foreign code. They are the parameters `decode` and `serialize`. Wire-format details, such as whether counts are recomputed, are theirs.
- `net.ParseCIDR` (main.go:111) is foreign code. It is the parameter `parseCidr`, and only its address result is kept.
- Resource records keep only name, type, class, TTL, data length, data and address. The other RDATA views of gopacket's record (NS, CNAME, MX, OPT, ...) are not modelled. Records in the authority and additional sections are carried through unchanged as these values.
- The write of the local answer (main.go:143-145): its error is only logged. `Dns.Answer` returns the bytes it writes.
- Logging, and the commented-out `dumpbytes` and `dumplayer` (main.go:175-202).
- `GoFmt` follows the fmt package of current Go releases. The Go version the program was built with is not recorded. fmt's source is not part of this model. Besides fmt's documented printing of format errors, `GoFmt` reproduces undocumented internals as current releases implement them: parsenum giving up on numbers above 1e6, parseArgNumber needing at least three bytes for an index, and the DecodeRune rule for the verb byte. A different release may differ in these.
