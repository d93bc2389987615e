# URL decoding, query-string parsing and the AJP read listener

This project models two parts of the Undertow web server in Dafny and proves properties of them.

**`URLUtils`** (`url_utils.dfy`) covers two operations:
- The percent-decoder for URL components. `%xy` escapes become octets and `+` becomes a space. Malformed escapes are rejected. With slash decoding off, a decoded `/` or `\` is written back as `%2F` or `%5C`.
- The parser that splits a query string or a path-parameter string into key/value pairs. It hands those pairs to the query or path parameters of an HTTP exchange.

The decoder and the parser are modelled as the imperative loops they are. Each is proved equal to a reference function: `Decoded` for the decoder, `QueryParams` for the parser. The properties are then proved as lemmas about those functions.

**`Ajp`** (`ajp_read_listener.dfy`) covers three things:
- The policy that decides how the body of a forwarded request is read. The choices are an unknown length, no body, or a bounded body.
- The CPong reply packet, and the packet framing of the Apache JServ Protocol 1.3.
- The read listener's `handleEvent`. This is modelled as a class method over the listener's fields, the connection's kept "extra bytes" buffer and the channel.
  - The channel is a queue of read results.
  - The AJP packet parser is a parameter, constrained only by what the listener relies on (`ParserContract`).
  - The method is proved equal to the reference `ReadLoop`, whose properties are lemmas: byte accounting, the size limit, buffer retention and dispatch.

`common.dfy` holds the `Option`/`Result` types, the `byte` type and ASCII lower-casing.

## Model

| member | source | states |
|---|---|---|
| URLUtils.Decode | core/src/main/java/io/undertow/util/URLUtils.java:68-178 | the decoder's result is exactly the reference decoding `Decoded` of the input: the decoded string, or `Malformed` where the source throws |
| URLUtils.DecodeEscapes | core/src/main/java/io/undertow/util/URLUtils.java:94-139 | a run of `%xy` escapes fills the byte buffer, which is sized (n-i)/3 at the first `%`. The run ends at the first character that does not start an escape. A bad digit or a trailing incomplete `%` makes the whole decoding malformed; otherwise the run's decoded (and, if needed, re-escaped) text is the head of the reference decoding |
| URLUtils.Reescape | core/src/main/java/io/undertow/util/URLUtils.java:142-161 | the re-escaping loop gives each character of the decoded run, with `/` and `\` replaced by `%2F` and `%5C` |
| URLUtils.EscapeValue | core/src/main/java/io/undertow/util/URLUtils.java:102-122 | both characters are hex digits (in either case) exactly when the escape is accepted, and then the value is the octet 16*hi+lo |
| URLUtils.Latin1 | core/src/main/java/io/undertow/util/URLUtils.java:141 | `new String(bytes, 0, pos, enc)` under ISO-8859-1: one character per decoded byte |
| URLUtils.Latin1Codes | core/src/main/java/io/undertow/util/URLUtils.java:141 | each character's code is the value of its byte, so two byte runs decode alike only when they are equal |
| URLUtils.HexValue | core/src/main/java/io/undertow/util/URLUtils.java:106-119 | a hex digit's value is below 16 |
| URLUtils.DecodedUnchanged | core/src/main/java/io/undertow/util/URLUtils.java:170-177 | a string without `+` and `%` decodes to itself |
| URLUtils.DecodedOkIff | core/src/main/java/io/undertow/util/URLUtils.java:102-139 | decoding succeeds if and only if every `%` starts two hex digits |
| URLUtils.DecodeEncode | core/src/main/java/io/undertow/util/URLUtils.java:68-178 | percent-encoding any string and decoding it gives the string back, with slash decoding on or off |
| URLUtils.SeparatorsKept | core/src/main/java/io/undertow/util/URLUtils.java:123-125 | with slash decoding off, the decoded string holds exactly as many `/` and `\` as the input: decoding never creates a path separator |
| URLUtils.HexExamples | core/src/main/java/io/undertow/util/URLUtils.java:102-119 | `%41` decodes to `A`; `%4a%4A` decodes to `JJ` (hex digits in either case) |
| URLUtils.PlusExample | core/src/main/java/io/undertow/util/URLUtils.java:80-84 | `a+b` decodes to `a b` |
| URLUtils.SlashExamples | core/src/main/java/io/undertow/util/URLUtils.java:142-161 | `%2F` stays `%2F` with slash decoding off and `%2f` becomes `/` with it on; `a/b%5c` gives `a/b%5C` |
| URLUtils.MalformedExamples | core/src/main/java/io/undertow/util/URLUtils.java:134-139 | `%zz`, `%`, `%4` and a trailing `%4` after a good escape are malformed |
| URLUtils.SegmentsJoin | core/src/main/java/io/undertow/util/URLUtils.java:186-200 | the segments between `&`s hold no `&` and, joined with `&`, give back the input |
| URLUtils.KeptSegmentsEmpty | core/src/main/java/io/undertow/util/URLUtils.java:201-205 | no segment is handled exactly when the string is empty |
| URLUtils.KeptSegmentsOf | core/src/main/java/io/undertow/util/URLUtils.java:201-205 | every segment is handled except an empty last one |
| URLUtils.SplitFieldPair | core/src/main/java/io/undertow/util/URLUtils.java:188-190 | a segment gives the pair (k, v) exactly when it is k `=` v with no `=` in k: the key ends at the first `=` |
| URLUtils.SplitFieldBare | core/src/main/java/io/undertow/util/URLUtils.java:194-195 | a segment gives a bare key exactly when it holds no `=`, and then the key is the whole segment (with value "") |
| URLUtils.DecodePart | core/src/main/java/io/undertow/util/URLUtils.java:211-216 | with decoding off the text is returned unchanged; with decoding on the result is `dec` of the text, and `None` stands for `URLDecoder.decode`'s `IllegalArgumentException` |
| URLUtils.RawPairs | core/src/main/java/io/undertow/util/URLUtils.java:211-216 | without decoding, parsing never fails and yields one pair per handled segment, taken verbatim |
| URLUtils.QueryParamsConcat | core/src/main/java/io/undertow/util/URLUtils.java:191-199 | parsing `a&b` is parsing `a&` followed by parsing `b`, unless a decoding failure in `a` stops it first |
| URLUtils.PlainSegment | core/src/main/java/io/undertow/util/URLUtils.java:201-205 | a string without `&` is one segment, which is handled unless empty |
| URLUtils.TrailingAmpExample | core/src/main/java/io/undertow/util/URLUtils.java:191-205 | `a&` yields just the pair (`a`, "") |
| URLUtils.FirstEqualsExample | core/src/main/java/io/undertow/util/URLUtils.java:188-190 | `a=b=c` yields the pair (`a`, `b=c`) |
| URLUtils.ThreeSegmentsExample | core/src/main/java/io/undertow/util/URLUtils.java:186-205 | `a=1&b=2&c` yields the pairs (`a`, `1`), (`b`, `2`) and (`c`, ""), in that order |
| URLUtils.EmptySegmentExample | core/src/main/java/io/undertow/util/URLUtils.java:191-198 | `a&&b` yields (`a`, ""), then ("", "") for the empty segment between the two `&`s, then (`b`, "") |
| URLUtils.FailureSticks | core/src/main/java/io/undertow/util/URLUtils.java:183-208 | once a decoding fails, nothing after it is handled: the outcome is fixed |
| URLUtils.Exchange.Handle | core/src/main/java/io/undertow/util/URLUtils.java:34-45 | `handle` appends the pair to the chosen list of the exchange and leaves the other list alone |
| URLUtils.HandleField | core/src/main/java/io/undertow/util/URLUtils.java:192-198 | a segment's pair is appended exactly when its key and value decode, and it is appended decoded |
| URLUtils.Parse | core/src/main/java/io/undertow/util/URLUtils.java:182-209 | the parser appends to the chosen list exactly the pairs of the reference `QueryParams` and reports a failure exactly when it does; the other list is unchanged |
| URLUtils.ParseQueryString | core/src/main/java/io/undertow/util/URLUtils.java:51-53 | the query-string entry point appends the reference pairs to the query parameters only |
| URLUtils.ParsePathParms | core/src/main/java/io/undertow/util/URLUtils.java:55-57 | the path-parameter entry point appends the reference pairs to the path parameters only |
| Ajp.EqualsIgnoreCase | core/src/main/java/io/undertow/ajp/AjpReadListener.java:256 | `HttpString.equals` compares header values up to ASCII case: equal strings compare equal, and strings that compare equal have the same length |
| Ajp.Wrap | core/src/main/java/io/undertow/ajp/AjpReadListener.java:243-275 | the body has an unknown length if and only if a Transfer-Encoding other than `identity` is present. Otherwise there is no body exactly when Content-Length is absent or zero, and a bounded body of exactly Content-Length bytes otherwise |
| Ajp.ContentLengthIgnored | core/src/main/java/io/undertow/ajp/AjpReadListener.java:256-257 | under a transfer coding, the Content-Length makes no difference and the request is not terminated |
| Ajp.IdentityIsNoCoding | core/src/main/java/io/undertow/ajp/AjpReadListener.java:250-256 | a Transfer-Encoding of `identity`, in any case, decides as if there were none |
| Ajp.LengthDecides | core/src/main/java/io/undertow/ajp/AjpReadListener.java:258-272 | a nonzero length bounds the body by that length; a zero or missing length terminates the request |
| Ajp.DecodeEncode | core/src/main/java/io/undertow/ajp/AjpReadListener.java:40 | a packet built from a payload (the framing the CPong reply must follow) reads back as that payload and leaves what follows it |
| Ajp.EncodeDecode | core/src/main/java/io/undertow/ajp/AjpReadListener.java:40 | whatever reads as a packet is the framing of its payload followed by the rest |
| Ajp.CPongAsWritten | core/src/main/java/io/undertow/ajp/AjpReadListener.java:40 | the declared reply reads as a packet with an empty payload followed by three stray bytes, and differs from the protocol's CPong reply |
| Ajp.CPongReplyReads | core/src/main/java/io/undertow/ajp/AjpReadListener.java:40 | the protocol's CPong reply is `A B 0 1 9` and reads back as exactly one packet whose payload is the code 9 |
| Ajp.Fetch | core/src/main/java/io/undertow/ajp/AjpReadListener.java:71-111 | a turn's input is the kept extra bytes if any, otherwise the next read. Only a read with no bytes, the end of the stream or an I/O error leaves it without input. Input is never empty, and exactly one read is used up when there are no extra bytes |
| Ajp.Consume | core/src/main/java/io/undertow/ajp/AjpReadListener.java:113-130 | a parse turn only raises the count and stops only for the limit or a complete packet; when it goes on, the buffer is empty and kept only if it was kept before and did not hold the extra bytes |
| Ajp.Iteration | core/src/main/java/io/undertow/ajp/AjpReadListener.java:70-131 | a turn that does not stop uses up a read or the extra bytes, does not lower the count, and leaves the buffer empty |
| Ajp.Decide | core/src/main/java/io/undertow/ajp/AjpReadListener.java:85-160 | an event dispatches if and only if a complete packet is a request or a CPing, after a CPong when the packet was a CPing. A complete packet of another type is rejected. Nothing to read means waiting for the next event, and too many bytes means the oversized close |
| Ajp.TurnAccounts | core/src/main/java/io/undertow/ajp/AjpReadListener.java:113-125 | one turn uses up no read when there are extra bytes or no read is pending, and one read otherwise. The extra bytes plus the bytes that read delivered equal the growth of the count plus the bytes left in the buffer |
| Ajp.LoopAccounts | core/src/main/java/io/undertow/ajp/AjpReadListener.java:119-125 | over the whole loop, every byte from the extra bytes or from the reads taken is either counted or left in the buffer, and the untaken reads are a suffix of the pending ones |
| Ajp.LoopLimit | core/src/main/java/io/undertow/ajp/AjpReadListener.java:126-130 | the count never decreases, and (starting within the limit) the loop stops for size exactly when the final count exceeds the limit |
| Ajp.LoopRetains | core/src/main/java/io/undertow/ajp/AjpReadListener.java:122-125 | the buffer is kept as extra bytes exactly when bytes are left in it, and only when a packet is complete or the limit was passed |
| Ajp.LoopComplete | core/src/main/java/io/undertow/ajp/AjpReadListener.java:131 | the loop reports a complete packet only when the parser completed one |
| Ajp.DispatchWithinLimit | core/src/main/java/io/undertow/ajp/AjpReadListener.java:126-146 | a dispatched exchange comes from a complete packet read within the size limit |
| Ajp.Channel.Read | core/src/main/java/io/undertow/ajp/AjpReadListener.java:74 | a read takes the next pending result, or delivers no bytes when none is pending |
| Ajp.Listener.constructor | core/src/main/java/io/undertow/ajp/AjpReadListener.java:42-54 | a new listener has a zero count, a fresh parser state and a new exchange |
| Ajp.Listener.HandleEvent | core/src/main/java/io/undertow/ajp/AjpReadListener.java:61-174 | the event runs the reference `ReadLoop` from the kept extra bytes, the pending reads, the parser state and the count. Its outcome is `Decide` of where the loop stopped. The count, the remaining reads and the buffer are the loop's. The buffer becomes the connection's extra bytes exactly when the loop keeps it, and is returned to the pool otherwise. The connection is closed on oversize or rejection, the channel on an I/O error, and reads are shut down at end of input and resumed when nothing was read. On a ping, the declared CPong bytes are written. On dispatch the state and exchange are cleared and the exchange is marked persistent, started and given its scheme |
| Ajp.Listener.ReadFrame | core/src/main/java/io/undertow/ajp/AjpReadListener.java:62-131 | the do-while loop ends exactly where the reference `ReadLoop` ends, with the matching closes, shutdown and resumption |
| Ajp.Listener.ReadTurn | core/src/main/java/io/undertow/ajp/AjpReadListener.java:70-130 | one pass of the loop body leaves the state, count, reads and buffer as the reference `Iteration` says |
| Ajp.Listener.FetchInput | core/src/main/java/io/undertow/ajp/AjpReadListener.java:71-111 | the input taken is the reference `Fetch`; the buffer is cleared before a read |
| Ajp.Listener.ConsumeInput | core/src/main/java/io/undertow/ajp/AjpReadListener.java:113-130 | the parse step leaves the state, count and buffer as the reference `Consume` says. It takes the extra bytes off the connection, keeps the buffer when bytes are left, and closes the connection over the limit |
| Ajp.Listener.Conclude | core/src/main/java/io/undertow/ajp/AjpReadListener.java:134-160 | after the loop, the outcome is `Decide`. Another packet type closes the connection. A CPing is answered with the declared CPong bytes and then dispatched like a request |
| Ajp.Listener.HandleCPing | core/src/main/java/io/undertow/ajp/AjpReadListener.java:176-184 | answering a CPing resets the parser state, suspends reads and writes the declared 7-byte `CPong` constant (see Findings for what the proxy reads from it) |

## Left out

- Character sets other than ISO-8859-1: each decoded octet becomes the character with the same code, so a run of escapes decodes octet by octet.
- `URLDecoder.decode`, which the query parser calls when decoding is on, is a parameter `dec` of the query model, and `None` stands for its `IllegalArgumentException`. That exception leaves `parse` after the earlier pairs were handed over, which the model keeps.
- The `v < 0` check in `decode` cannot fire, since both digits are checked first; it is not modelled.
- `Character.toLowerCase` is modelled on ASCII only. No other character lower-cases to a hex digit.
- The exchange's parameter maps are modelled as lists of pairs in the order they are added.
- The XNIO I/O is not modelled: the channel is a queue of read results and the connection records what is written. Also left out are the flush listener set up at the end of input and the asynchronous completion of the CPong write.
- Ajp.Listener.HandleCPing: the re-entrant call of `handleEvent` after the reply is written is left out.
- Ajp.Listener.HandleEvent: the exchange's attachments, wrappers and `executeRootHandler` are left out. So is the `catch (Throwable)`/`catch (Exception)` handling around them.
- The AJP packet parser is not part of this model. It is an abstract step constrained by `ParserContract`: it takes a prefix of its input and stops short of the end only when a packet is complete. The contract rules out a parser that leaves bytes unconsumed without completing a packet. With such a parser, the loop would keep the buffer as the connection's extra bytes (lines 122-125 of `AjpReadListener.java`). It would then clear that buffer for the next read (line 72), and those bytes would be lost. The second clause of `LoopRetains` and the buffer result of `HandleEvent` rely on this exclusion.
- Ajp.Wrap: the Content-Length is taken as an already parsed number; `Long.parseLong` and its `NumberFormatException` are left out.
- Ajp.Listener.HandleEvent: the count is an unbounded integer, so the 32-bit overflow of `read` is not modelled. Logging and `volatile` are left out as well.
- Ajp.Listener.HandleEvent: the packet parser cannot fail in this model. In the source a parse error throws; the `catch (Exception)` at the end of `handleEvent` then closes the connection's channel and frees the buffer unless it was kept. That path is not modelled.
- URLUtils.Decode: the caller's `StringBuilder` is a local buffer here. The source resets the caller's builder and leaves the decoded text in it; the model does not capture that side effect.

## Findings

| source | as written | input that shows it | evidently intended | confidence | as-written member | corrected member |
|---|---|---|---|---|---|---|
| core/src/main/java/io/undertow/ajp/AjpReadListener.java:40 | the CPong reply is declared as `A B 0 0 0 1 9`, a packet header announcing a zero-length payload, followed by three more bytes | any CPing: the proxy reads an empty packet with no type code, then `0 1 9` as the start of the next packet | the CPong reply of the Apache JServ Protocol 1.3, `A B 0 1 9`: a one-byte payload holding the code 9 | not executed; high | Ajp.CPongAsWritten | Ajp.CPongReplyReads |
