# A verified model of the net-playground clients

This project models, in Dafny, the computational core of the network clients in the
net-playground repository:

- **The C DNS stub resolver (`dns_client.c`).** It converts a dotted hostname into an
  RFC 1035 QNAME with `strtok`. It lays a `struct dns_header` over the message buffer,
  fills it in and byte-swaps it with `htons`. Then it reads the reply out of a
  2048-byte buffer: header, question, and `an_count` fixed 16-byte A answers.
  Buffers are arrays and the header struct is a class. The host is little-endian.
- **The Python DNS client (`dns_client.py`).** It builds the same request by byte
  concatenation and unpacks the reply with `struct.unpack`. Its question decoder is a
  hand-written state machine.
- **The ICMP ping client (`ping_client.py`).** It computes the Internet checksum
  (RFC 1071) and builds the Echo Request (RFC 792). It parses the fixed 20-byte IPv4
  header (section 3.1 of RFC 791) and the ICMP header, and compares the echoed data.
- **The integer logic of the two Go HTTP benchmarks** (`http_benchmark/http_benchmark.go`
  and `http_benchmark.go`): `doRequest`'s status and Content-Length validation,
  `formatBytes`' unit selection, the `-header K=V` flag handling, and the
  total/average/min/max reductions over results.

Both DNS clients are proved against one shared byte-level specification of the
RFC 1035 message (module `DnsFormat`). It covers:
- big-endian 16- and 32-bit words;
- the header with its flags word (section 4.1.1);
- the QNAME encoding (section 3.1);
- the question (section 4.1.2);
- the 16-byte A record with its 14-bit compression offset (sections 4.1.3 and 4.1.4).

The modules are:
- `Common`: Option/Result, split/join and decimal text.
- `Wire`: byte words and host byte-order swaps.
- `DnsFormat`.
- `DnsC`: `dns_client.c`.
- `DnsPy`: `dns_client.py`.
- `Ping`: `ping_client.py`.
- `HttpBench`: the two Go files. Their shared logic is defined once.

How the sources are represented:
- Hostnames and DNS names are byte sequences (ASCII).
- Go strings are sequences of `char`.
- Errors raised or returned by the source are modelled:
  - Python's `struct.error` and `OverflowError` are `Err` values.
  - Go's `error` is its message text.
- The host byte order of `ping_client.py` (`sys.byteorder`) is the parameter `little`.

The model follows the code. For example, the Go `Maximum` closure starts at 0, so
when every value is negative it returns 0 even though the list is non-empty.

## Model

| member | source | states |
|---|---|---|
| Common.Split | dns_client.py:94 | `str.split(sep)` / `strings.Split`: at least one piece, and no piece holds the separator |
| Common.JoinSplit | dns_client.py:94 | joining the pieces of a split with the separator gives the original sequence back |
| Common.SplitJoin | http_benchmark/http_benchmark.go:108 | splitting a join of separator-free pieces gives the pieces back |
| Common.SplitAfterPiece | http_benchmark/http_benchmark.go:108 | a separator-free piece followed by the separator splits off as the first piece |
| Common.SplitWithoutSeparator | http_benchmark/http_benchmark.go:108 | text without the separator splits into itself alone |
| Common.JoinLength | dns_client.py:171 | a join is as long as its pieces plus one separator between each pair |
| Common.JoinSnoc | dns_client.py:171 | joining one more piece appends a separator and that piece |
| Common.Decimal | dns_client.py:186 | decimal text of a natural number: non-empty and all digits |
| Common.DecimalValue | dns_client.py:186 | the decimal text reads back as the number |
| Common.DecimalLength | dns_client.c:260 | one digit exactly below 10; at most three digits below 1000 |
| Wire.BE16 | dns_client.py:126 | the two bytes of a big-endian word make its value |
| Wire.ReadBE16 | dns_client.py:126 | `struct.unpack("!H")`: the word read is the one whose encoding is those two bytes |
| Wire.ReadBE32Bytes | ping_client.py:109 | the `!I` word read from four bytes encodes back to them |
| Wire.Swap16 | dns_client.c:194-202 | `htons` on a little-endian host exchanges the high and low bytes |
| Wire.StoreLE16 | dns_client.c:214-215 | a word stored in little-endian memory: low byte first |
| Wire.LoadLE16 | dns_client.c:246-247 | a word loaded from little-endian memory is the one whose stored bytes are there |
| Wire.StoreSwapped | dns_client.c:214-215 | storing `htons(x)` writes x's big-endian bytes |
| Wire.LoadSwapped | dns_client.c:246-247 | `ntohs` of a word loaded from memory is the big-endian word there |
| Wire.ReadStored | dns_client.c:194-202 | the big-endian word over a stored word is its byte swap |
| Wire.LoadBytes | dns_client.c:259 | the four bytes of a 32-bit load, in memory order |
| Wire.LoadSwapped32 | dns_client.c:256 | `ntohl` of a loaded word is the big-endian 32-bit word there |
| Wire.ReadWritten32 | ping_client.py:109 | a big-endian 32-bit word written reads back unchanged |
| Wire.SwapTwice | dns_client.c:218-226 | `ntohs(htons(x)) == x` |
| Wire.LoadOfBE16 | dns_client.c:218-226 | loading a big-endian word from memory gives its byte swap |
| Wire.ReadWritten | dns_client.py:126 | a big-endian word written reads back unchanged |
| DnsFormat.UnpackFlags | dns_client.py:127-139 | the eight flag fields cut from the flags word all lie in their bit widths |
| DnsFormat.UnpackPackFlags | dns_client.c:105-115 | packing at the bit positions qr 15, opcode 11-14, aa 10, tc 9, rd 8, ra 7, z 4-6, rcode 0-3 and unpacking gives the fields back |
| DnsFormat.PackUnpackFlags | dns_client.py:127-139 | the shift/mask fields rebuild the flags word exactly |
| DnsFormat.EncodeHeader | dns_client.c:116-124 | the header is six words in 12 bytes |
| DnsFormat.DecodeHeader | dns_client.py:125-144 | the header read from the first 12 bytes has valid flags and encodes back to those bytes |
| DnsFormat.DecodeHeaderWords | dns_client.py:126 | the decoded header is the six big-endian words, the second one cut into flags |
| DnsFormat.DecodeHeaderPrefix | dns_client.py:126 | only the first 12 bytes decide the header |
| DnsFormat.HeaderRoundTrip | dns_client.c:194-202 | decoding an encoded header gives every field back |
| DnsFormat.RequestHeaderBytes | dns_client.c:175-192 | the request header (id 1, rd 1, one question) has flags word 0x0100 and the bytes `00 01 01 00 00 01 00 00 00 00 00 00` |
| DnsFormat.EncodeLength | dns_client.c:148 | the encoded labels take their bytes plus one length byte each |
| DnsFormat.ParseLabels | dns_client.c:228-243 | the reference name decoder: what it accepts is well-formed labels whose QNAME is a prefix of the input |
| DnsFormat.ParseQName | dns_client.c:228-243 | the reference decoder reads an encoded QNAME back as its labels, whatever follows |
| DnsFormat.QNameOfHostLength | dns_client.c:144-149 | the QNAME of a hostname is `strlen(host) + 2` bytes long |
| DnsFormat.NameRoundTrip | dns_client.c:151-173 | a hostname's labels encode and decode back, and join back to the hostname |
| DnsFormat.NameTextLength | dns_client.c:231 | the dotted text of a name is two bytes shorter than its QNAME |
| DnsFormat.FirstZero | dns_client.c:230 | `strlen`: the first zero byte, with no zero byte before it |
| DnsFormat.FirstZeroAfter | dns_client.c:230 | a zero byte after a zero-free run is found at the run's end |
| DnsFormat.EncodedHasNoZero | dns_client.c:230 | an encoded name of non-empty, zero-free labels has no zero byte before its terminator |
| DnsFormat.DecodeARecord | dns_client.c:250-261 | the A record at an offset: name offset below 0x4000 and four address bytes |
| DnsFormat.ARecordRoundTrip | dns_client.c:250-261 | an encoded A record is 16 bytes and reads back with its name word masked by 0x3FFF |
| DnsFormat.DecodeAt | dns_client.c:252 | a record is read from its own 16 bytes only |
| DnsFormat.RequestRoundTrip | dns_client.c:204-216 | the request message is `12 + |qname| + 4` bytes: request header, QNAME, then QTYPE 1 and QCLASS 1 |
| DnsFormat.EncodeAnswers | dns_client.c:353 | the answer section is 16 bytes per record |
| DnsFormat.AnswerBytes | dns_client.c:353 | answer i lies at bytes `16 i` to `16 i + 16` of the answer section |
| DnsFormat.AnswerInPlace | dns_client.c:353 | answer i lies at `|before| + 16 i` in a whole message |
| DnsFormat.AnswersRoundTrip | dns_client.py:208-210 | each answer of an encoded answer section reads back, name word masked |
| DnsFormat.ResponseRoundTrip | dns_client.c:349-354 | in a reply built from header, QNAME, type, class and answers: the header, the labels and answer i at `12 + |QNAME| + 4 + 16 i` all read back |
| DnsFormat.HeaderAndName | dns_client.c:342-343 | the header and the name of a message read back whatever follows |
| DnsFormat.HeaderFirst | dns_client.py:126 | the header reads back whatever follows it |
| DnsC.ToShort | dns_client.c:148 | the `(short)` cast keeps x modulo 2^16 in -32768..32767 and leaves values in range unchanged |
| DnsC.StrLen | dns_client.c:230 | `strlen` over an array: the index of the first zero byte |
| DnsC.CopyInto | dns_client.c:212 | `strcpy` into an array: the bytes written at the offset, nothing else changed |
| DnsC.GetQnameLen | dns_client.c:144-149 | `get_qname_len` is a short |
| DnsC.QnameLenOfHost | dns_client.c:144-149 | for a hostname with labels under 256 bytes, `get_qname_len` is the QNAME's length |
| DnsC.NonEmpty | dns_client.c:159-166 | the pieces `strtok` keeps: exactly the non-empty ones |
| DnsC.NonEmptyLength | dns_client.c:159-166 | dropping empty pieces keeps the total length, and keeps every piece exactly when none is empty |
| DnsC.WrappedLength | dns_client.c:162-164 | the bytes written for the tokens are their bytes plus one length byte each |
| DnsC.WrappedIsEncoded | dns_client.c:162-164 | for tokens under 256 bytes, what the loop writes is the QNAME label encoding |
| DnsC.ZeroInWrapped | dns_client.c:162 | a zero byte appears in what is written exactly when some token's length is a multiple of 256 |
| DnsC.Tokens | dns_client.c:159-166 | the `strtok` loop yields non-empty tokens without a dot, and every non-empty piece of the dotted hostname among them |
| DnsC.SplitKeepsOut | dns_client.c:159 | a byte absent from the hostname is absent from every piece |
| DnsC.TokensLayout | dns_client.c:159-168 | the written bytes are at most `strlen(host) + 1` long, exactly that long iff no piece is empty, in which case the tokens are the pieces |
| DnsC.RefusedByToken | dns_client.c:162-171 | a token of length a multiple of 256 makes the hostname refused, and for hostnames without empty pieces a refused one has such a token |
| DnsC.HostnameToQname | dns_client.c:151-173 | `hostname_to_qname` returns NULL exactly for refused hostnames (an empty piece such as "", ".a", "a.", "a..b", or a label whose length is a multiple of 256); otherwise a fresh `strlen + 2` buffer holding each label's length byte and bytes and a terminator: the QNAME |
| DnsC.WriteTokens | dns_client.c:160-166 | the token loop writes each token's length byte and bytes and leaves the calloc'd zeros after them |
| DnsC.WriteToken | dns_client.c:162-164 | one iteration writes the length byte and the token and changes nothing else |
| DnsC.WrappedStep | dns_client.c:160-166 | one more token extends the written bytes by its length byte and its bytes |
| DnsC.WrappedAppend | dns_client.c:160-166 | the bytes written for two runs of tokens are the concatenation |
| DnsC.QnameOutcome | dns_client.c:167-171 | the `strlen(qname) + 1 < qname_len` test fails exactly for refused hostnames, and otherwise the buffer is the tokens and a zero byte |
| DnsC.DnsHeader.Image | dns_client.c:116-124 | the struct occupies 12 bytes |
| DnsC.DnsHeader.Logical | dns_client.c:325 | the header the fields hold, flags read through the bit-field struct, has valid flags |
| DnsC.DnsHeader.Overlay | dns_client.c:207 | the struct laid over a buffer holds the buffer's first 12 bytes |
| DnsC.DnsHeader.Hydrate | dns_client.c:175-192 | `hydrate_dns_header`: id 1, the flags word of the request flags, one question, no other records |
| DnsC.DnsHeader.Flip | dns_client.c:194-202 | `flip_dns_header` swaps every word; host-order fields become the header's network encoding, and network bytes become the decoded header |
| DnsC.DnsHeader.Extract | dns_client.c:218-226 | `extract_header` swaps every word, so the fields hold the header decoded from the bytes |
| DnsC.SwappedImage | dns_client.c:194-202 | swapped host-order words lie in memory as the big-endian header encoding |
| DnsC.LoadedImage | dns_client.c:218-226 | words loaded from memory and swapped are the decoded header |
| DnsC.WriteRequestHeader | dns_client.c:207-209 | hydrating and flipping the header through the overlay writes the request header's 12 network bytes and nothing else |
| DnsC.HydrateMessage | dns_client.c:204-216 | `hydrate_message` fills the buffer with request header, QNAME and terminator, QTYPE 1 and QCLASS 1 |
| DnsC.BuildRequest | dns_client.c:276-291 | the request `main` sends is NULL exactly for refused hostnames and for hostnames so long that the `short message_len` wraps negative (0x7FEE bytes or more); else a fresh buffer of `message_len` bytes holding the request message for the hostname's QNAME |
| DnsC.EncodeAppend | dns_client.c:240-242 | the encoding of two runs of labels is the concatenation |
| DnsC.EncodePrefix | dns_client.c:240-242 | the encoding of the first k+1 labels extends that of the first k by label k |
| DnsC.NameAllocationShort | dns_client.c:231 | `malloc(qname_len - 1)` is smaller than the dotted name and its terminator, for every name |
| DnsC.ExtractQuestion | dns_client.c:228-248 | `extract_question` with the name buffer sized correctly: the name is the labels joined by dots plus a terminator, and QTYPE and QCLASS are the big-endian words after the zero byte |
| DnsC.ExtractName | dns_client.c:230-244 | the encoded name's strlen is `|QNAME| - 1` and the new buffer holds the dotted name and terminator |
| DnsC.NewName | dns_client.c:231-244 | allocating, copying and terminating gives the dotted name and terminator |
| DnsC.Terminate | dns_client.c:244 | the terminator goes after the copied text |
| DnsC.QuestionWords | dns_client.c:245-247 | QTYPE and QCLASS are the big-endian words at the position |
| DnsC.NameBufferFits | dns_client.c:231 | the dotted name and terminator take exactly `strlen` of the encoded name (one byte for the root) |
| DnsC.CopyName | dns_client.c:232-243 | the copy loop writes exactly the labels joined by dots |
| DnsC.LoopCopiesAll | dns_client.c:234-243 | the loop, run over the whole encoded name, copies exactly its labels |
| DnsC.NameCopied | dns_client.c:230-244 | for a reply name without zero bytes in its labels, strlen measures the whole encoded name and the loop writes exactly the dotted name |
| DnsC.StrlenInsideName | dns_client.c:230 | with a zero byte in a label, strlen stops inside the encoded name, after its first length byte |
| DnsC.LoopOverruns | dns_client.c:234-243 | when strlen stopped at a zero byte inside a label, the loop still copies that whole label, so its text and terminator take more bytes than strlen measured |
| DnsC.ZeroByteOverruns | dns_client.c:230-244 | for a reply name with a zero byte in a label, the loop writes more than `qname_len` bytes: past even a `qname_len`-byte name buffer |
| DnsC.LabelHere | dns_client.c:240-242 | at the section position there is a length byte and that label, which fits within the text |
| DnsC.CopyingStep | dns_client.c:234-243 | one iteration keeps the loop's invariant with k, section_pos and qname_pos advanced |
| DnsC.AppendLabel | dns_client.c:236-241 | a dot (except at the start) and the label are appended to the name |
| DnsC.ParsedAt | dns_client.c:228-230 | a name accepted by the reference decoder lies at the start position as its QNAME, with no zero byte inside |
| DnsC.NameEnd | dns_client.c:230 | `strlen` at the start of an encoded name measures its labels |
| DnsC.LabelAt | dns_client.c:240-242 | the bytes at a label's position are its length, its bytes, then the rest of the encoding |
| DnsC.JoinStep | dns_client.c:236-241 | the dotted text of k+1 labels is that of k, a dot if k > 0, and label k |
| DnsC.JoinPrefixLength | dns_client.c:236-241 | the dotted text of a prefix of the labels is no longer than the whole |
| DnsC.InetNtoa | dns_client.c:260 | the dotted-quad text of an address takes 7 to 15 characters, so it and its terminator fit 16 bytes |
| DnsC.IpTextOverflows | dns_client.c:141 | the dotted-quad text and terminator exceed the 4-byte `ip_addr` for every address and fit 16 bytes |
| DnsC.NtoaOfLoad | dns_client.c:259-260 | `inet_ntoa` of an address loaded from memory prints its bytes in memory order |
| DnsC.ExtractResourceRecord | dns_client.c:250-261 | `extract_resource_record` reads the A record at the offset with the name word masked by 0x3FFF, and the address text is its dotted quad, shorter than 16 bytes |
| DnsC.ExtractAnswers | dns_client.c:349-354 | answer i of `an_count` is the record at `12 + get_qname_len + 4 + 16 i` and its address text |
| DnsC.AnswerReadNext | dns_client.c:351-354 | the next answer read keeps every earlier one in place |
| DnsC.ReadHeader | dns_client.c:322-323 | flipping the struct laid over the reply gives the decoded header and its an_count |
| DnsC.DecodeResponse | dns_client.c:317-362 | the reply half of `main`: decoded header, the dotted name, QTYPE and QCLASS after it, and each answer at its stride |
| DnsC.QNameWithinText | dns_client.c:353 | the QNAME is at most two bytes longer than its dotted name |
| DnsC.TextOfName | dns_client.c:353 | `strlen` of the name buffer is the dotted text |
| DnsC.JoinHasNoZero | dns_client.c:353 | the dotted text of zero-free labels has no zero byte |
| DnsPy.CalculateQname | dns_client.py:93-100 | `calculate_qname` fails exactly when some label is 256 bytes or more; otherwise it is `len(domain) + 2` bytes and decodes back to the labels when they are well-formed |
| DnsPy.EmptyPieceCutsName | dns_client.py:94-97 | an empty label puts a zero byte before the end of the encoded name |
| DnsPy.EmptyLabelEncodesZero | dns_client.py:97 | an empty label encodes as a zero length byte |
| DnsPy.MakeDnsRequestMessage | dns_client.py:103-122 | the request is the shared request message for the host's QNAME; it fails exactly when `calculate_qname` does, and decodes back to the request header and the labels |
| DnsPy.ExtractHeader | dns_client.py:125-144 | `extract_header` fails exactly on fewer than 12 bytes; otherwise the header has valid flags and encodes back to the first 12 bytes |
| DnsPy.HeaderRoundTripPy | dns_client.py:125-144 | an encoded header reads back, whatever follows |
| DnsPy.ExtractQuestion | dns_client.py:147-175 | the `extract_question` loop computes exactly the reference question (`QuestionOf`): the labels the scanner collects up to the first zero byte, the two words after it, `answer_offset = cur + 5`, or a struct error |
| DnsPy.QuestionOf | dns_client.py:147-175 | `struct.error` exactly when `msg[12:]` has no zero byte followed by four more bytes; otherwise a question where the header is 12 bytes, the name ends at its first zero byte, QTYPE and QCLASS are the big-endian words after it, and `answer_offset` points past them inside the buffer |
| DnsPy.Step | dns_client.py:157-167 | one scanner step adds at most one label and advances the label counter by at most one |
| DnsPy.ScanByte | dns_client.py:157-167 | one iteration of the loop is one scanner step |
| DnsPy.RunAppend | dns_client.py:154-168 | scanning two pieces is scanning the first then the second |
| DnsPy.OpenRun | dns_client.py:159-164 | bytes of an open label append to a new label while the counter has not reached the length |
| DnsPy.CloseRun | dns_client.py:159-167 | the bytes that bring the counter to the length close the label |
| DnsPy.LabelRun | dns_client.py:157-167 | a length byte and that many bytes add one label; as written the counter keeps the label's length |
| DnsPy.CorrectedRun | dns_client.py:154-168 | with the counter reset per label, scanning an encoded name collects exactly its labels |
| DnsPy.RunKeepsPrefix | dns_client.py:161-164 | scanning never changes labels already closed |
| DnsPy.QuestionLayout | dns_client.py:147-175 | on header, QNAME and four more bytes, the question is the scanned labels, the words after the name and offset `|QNAME| + 4` |
| DnsPy.CorrectedRoundTrip | dns_client.py:147-175 | with the counter reset, every well-formed name round-trips through `extract_question` |
| DnsPy.HostRoundTrip | dns_client.py:103-175 | the question of the request for a hostname is type A, class IN, `answer_offset = len(host) + 6`, and its name is the hostname exactly when the decoder recovers it: always with the counter reset; as written, only for the label shapes of `DnsPy.AsWrittenRoundTrip` |
| DnsPy.QuestionOfRequest | dns_client.py:147-175 | the same for the question read from the request bytes, with or without the counter reset |
| DnsPy.RequestOfHost | dns_client.py:103-122 | the request for a hostname is header, QNAME, `00 01 00 01` |
| DnsPy.TextFront | dns_client.py:97 | the encoding and the dotted text of labels, spelled out at the first label |
| DnsPy.EncodedAsText | dns_client.py:160-168 | the encoded labels equal their dotted text exactly when every label is 46 bytes long |
| DnsPy.AsWrittenRoundTrip | dns_client.py:152-168 | as written, a hostname round-trips iff it has one label, or its second label is no longer than its first and every further label is 46 bytes long |
| DnsPy.FirstLabel | dns_client.py:154-168 | the first label always scans correctly and leaves the counter at its length |
| DnsPy.SecondLabel | dns_client.py:160-168 | after the first label the scan gives back the name iff the second label is no longer than the first and every later label is 46 bytes |
| DnsPy.LongSecondLabel | dns_client.py:165-167 | a second label longer than the first is cut short |
| DnsPy.LongSecondScan | dns_client.py:165-167 | the second label collected is cut to `|l1| - |l0|` bytes |
| DnsPy.MisSplitRun | dns_client.py:154-168 | as written the scan of `\x01a\x02bc` ends with labels "a" and "b" |
| DnsPy.MisSplitExample | dns_client.py:147-175 | as written "a.bc" reads back as "a.b"; with the counter reset it reads back as "a.bc" |
| DnsPy.DottedQuad | dns_client.py:186 | the decimals of four bytes joined by dots are the dotted-quad text |
| DnsPy.ExtractResourceRecord | dns_client.py:178-187 | `extract_resource_record` fails exactly on fewer than 12 bytes; the ip is the dotted decimal of the next `rd_length` bytes, clipped to the message; for a 4-byte RDATA it is the A record with its name word masked and the address as a dotted quad |
| DnsPy.Lookup | dns_client.py:204-210 | `lookup` after the reply, with the question decoder as written (`corrected` false) or with the counter reset: succeeds iff the header, the question and every answer can be read; then the header, the question and each answer at `12 + answer_offset + 16 i` |
| DnsPy.HeaderIsDecoded | dns_client.py:125-144 | `extract_header` is the shared header decoder |
| DnsPy.ExtractAnswers | dns_client.py:208-210 | the answer loop succeeds iff each of the `an_count` records has its 12 bytes, and reads record i at `12 + answer_offset + 16 i` |
| DnsPy.RecordsAtSnoc | dns_client.py:208-210 | one more record read keeps the earlier ones |
| DnsPy.ShortAnswer | dns_client.py:179 | a record cut short makes the answer loop fail |
| DnsPy.ReplyRoundTrip | dns_client.py:204-210 | for a reply built from header, hostname QNAME, type A, class IN and answers: header and answer i read back, the question is type A, class IN at `len(host) + 6`, and its name is the hostname exactly when recovered (always with the counter reset, only for the shapes of `DnsPy.AsWrittenRoundTrip` as written) |
| DnsPy.ReplyQuestion | dns_client.py:204-206 | the header of such a reply reads back, and its question as in `DnsPy.ReplyRoundTrip`, with or without the counter reset |
| DnsPy.QuestionOfHost | dns_client.py:147-175 | after any 12 header bytes, a hostname's QNAME followed by `00 01 00 01` reads as type A, class IN at `len(host) + 6`, the name being the hostname exactly when recovered |
| DnsPy.ReplyAnswer | dns_client.py:208-210 | answer i of such a reply reads back at `12 + len(host) + 6 + 16 i` |
| DnsPy.RecordRead | dns_client.py:178-187 | a record that decodes as an A record is what `extract_resource_record` returns |
| DnsPy.HostQuestion | dns_client.py:147-175 | the question of a hostname's QNAME, with or without the counter reset, is read: the two words after the zero byte and the answers at `len(host) + 6` |
| DnsPy.HostName | dns_client.py:152-168 | the name read from a hostname's QNAME is the hostname exactly when the decoder recovers it |
| DnsPy.NameRecovered | dns_client.py:147-175 | for any name of hostname labels: the question is read, the two words and `|QNAME| + 4`; the name comes back iff the counter is reset, or, as written, iff the labels have a shape of `DnsPy.AsWrittenRoundTrip` |
| DnsPy.HostText | dns_client.py:93-100 | a hostname's labels join back to it and its QNAME is `len(host) + 2` bytes |
| DnsPy.TypeAndClass | dns_client.py:172-173 | the words `00 01 00 01` read as type A and class IN |
| Ping.HostWord | ping_client.py:44-48 | the word two bytes make in host order: second byte high on little-endian, first byte high on big-endian |
| Ping.Fold | ping_client.py:56-58 | a carry fold leaves values below 2^16 unchanged |
| Ping.Complement | ping_client.py:62-65 | `~x & 0xFFFF` is `0xFFFF - x` for 16-bit x |
| Ping.Htons | ping_client.py:67 | `socket.htons` swaps the bytes on little-endian hosts and is the identity on big-endian ones |
| Ping.Checksum | ping_client.py:32-67 | `checksum` as written computes the host-order sum, the two folds, complement and `htons`; on a little-endian host it is the RFC 1071 checksum |
| Ping.SumWords | ping_client.py:37-54 | the summing loop adds the host-order word of each byte pair and then the odd byte alone |
| Ping.CorrectedChecksum | ping_client.py:52-54 | with the odd byte padded by a zero byte, the checksum is the RFC 1071 checksum on either byte order |
| Ping.SumBound | ping_client.py:43-54 | the sum is at most 2^16 per byte, so it stays below 2^32 for packets up to 65535 bytes |
| Ping.ZeroSum | ping_client.py:43-54 | the padded sum is zero exactly for an all-zero payload |
| Ping.LittlePadding | ping_client.py:52-54 | on a little-endian host the odd byte as written equals the padded odd byte |
| Ping.PaddedIsRfc1071 | ping_client.py:47-54 | the big-endian padded sum is the RFC 1071 sum |
| Ping.SwapCongruent | ping_client.py:44-47 | a byte-swapped word is 256 times the word modulo 0xFFFF |
| Ping.ByteOrderIndependent | ping_client.py:44-48 | the little-endian sum is 256 times the big-endian sum modulo 0xFFFF (byte-order independence, section 2(B) of RFC 1071) |
| Ping.FoldTwice | ping_client.py:56-60 | below 2^32 two folds give at most 0xFFFF, congruent modulo 0xFFFF, and zero only for zero |
| Ping.FoldStep | ping_client.py:56-58 | a fold keeps the value modulo 0xFFFF |
| Ping.SwapComplement | ping_client.py:62-67 | complementing commutes with the byte swap |
| Ping.LittleEndianIsRfc1071 | ping_client.py:32-67 | on a little-endian host the checksum as written is the RFC 1071 checksum for packets up to 65535 bytes |
| Ping.BothSums | ping_client.py:43-54 | the padded sums in both byte orders fit 32 bits, are zero together and are congruent up to the factor 256 |
| Ping.SwappedSums | ping_client.py:56-67 | congruent sums give byte-swapped finished checksums |
| Ping.SwappedFolds | ping_client.py:56-60 | non-zero folded sums that are congruent up to 256 are byte swaps of each other |
| Ping.CongruentEqual | ping_client.py:56-60 | two values in 1..0xFFFF congruent modulo 0xFFFF are equal |
| Ping.BigEndianOddByte | ping_client.py:52-54 | as written on a big-endian host the payload `01` gives 0xFFFE where RFC 1071 gives 0xFEFF |
| Ping.PackIcmp | ping_client.py:74-76 | `struct.pack("!BBHHH")` is 8 bytes |
| Ping.ExtractIcmpHeaderAndData | ping_client.py:90-102 | parsing fails exactly below 8 bytes; otherwise header and data pack back to the packet |
| Ping.IcmpRoundTrip | ping_client.py:90-102 | parsing a packed ICMP header and data gives both back |
| Ping.Ascii | ping_client.py:77 | `.encode("ascii")` keeps length and character codes |
| Ping.EchoDataLength | ping_client.py:77 | the greeting is 17 bytes, so the packet is 25 |
| Ping.EchoRequest | ping_client.py:73-87 | an Echo Request with the checksum of its blank header and data filled in parses back to that header and data, and re-checksums to 0 under the same checksum |
| Ping.MakePacket | ping_client.py:70-87 | `make_packet` with `checksum` as written: 25 bytes that parse as type 8, code 0, id 0, sequence 0 and the greeting; it re-checksums to 0 under `checksum` as written, and on a little-endian host its checksum field is the RFC 1071 checksum |
| Ping.MakePacketCorrected | ping_client.py:70-87 | `make_packet` with the corrected checksum: the blank header with the RFC 1071 checksum filled in, and the greeting |
| Ping.MakePacketAsWritten | ping_client.py:78 | on a little-endian host the packet as written is the corrected packet |
| Ping.InsertedWord | ping_client.py:78-86 | inserting the checksum grows the host-order sum by the complement of its own fold |
| Ping.WordOfHtons | ping_client.py:67-83 | the bytes `htons(v)` packs with `!H` read back in host order as v |
| Ping.PackedFront | ping_client.py:79-87 | the packet spelled out: type, code, checksum bytes, then the rest |
| Ping.SumFront | ping_client.py:43-50 | the sum of a packet starting with two bytes is their word plus the sum of the rest |
| Ping.Recheck | ping_client.py:73-87 | an Echo Request whose checksum is filled in re-checksums to 0 (RFC 1071 verification) |
| Ping.SumWithComplement | ping_client.py:56-65 | a sum plus the complement of its fold finishes to 0 |
| Ping.ComplementAdded | ping_client.py:62-65 | a sum plus the complement of a congruent value is a multiple of 0xFFFF |
| Ping.SameModTrans | ping_client.py:56-60 | congruence modulo 0xFFFF is transitive |
| Ping.MakePacketRechecks | ping_client.py:70-87 | the corrected packet is the same on either byte order and re-checksums to 0 under RFC 1071; on a little-endian host so does the packet as written |
| Ping.PackIp | ping_client.py:109 | `struct.pack("!BBHHHBBHII")` is 20 bytes |
| Ping.ExtractIpHeaderAndData | ping_client.py:105-121 | parsing fails exactly below 20 bytes; otherwise the header with some destination address packs back to the first 20 bytes, and the data is the rest |
| Ping.IpRoundTrip | ping_client.py:105-121 | parsing a packed IPv4 header and data gives both back |
| Ping.IpFields | ping_client.py:109-120 | each field read from its offset of a packed header |
| Ping.PingOutcome | ping_client.py:151-166 | the comparison is defined exactly when both packets have their headers, and reports success iff the reply's ICMP data equals the request's |
| Ping.EchoSucceeds | ping_client.py:158-166 | a reply echoing the greeting reports success whatever its headers |
| HttpBench.Itoa | http_benchmark/http_benchmark.go:33 | `strconv.Itoa` is never empty |
| HttpBench.Atoi | http_benchmark/http_benchmark.go:38 | `strconv.Atoi` accepts only an optional sign and digits, and only values in the 64-bit int range |
| HttpBench.AtoiItoa | http_benchmark/http_benchmark.go:33-38 | `Atoi(Itoa(n)) == n` for every 64-bit n |
| HttpBench.AtoiRejectsSignAlone | http_benchmark/http_benchmark.go:38 | a sign without digits is an error |
| HttpBench.CheckResponse | http_benchmark/http_benchmark.go:32-42 | `doRequest`'s checks: a non-200 status gives -1 and the status code text; a 200 reply succeeds iff the first Content-Length value parses to a positive int, which is returned; otherwise -1 and "Wrong Content-Length header"; the second benchmark does the same at http_benchmark.go:40-50 |
| HttpBench.StatusRecoverable | http_benchmark/http_benchmark.go:32-34 | the error text of a non-200 status parses back to the status code |
| HttpBench.LengthRoundTrip | http_benchmark/http_benchmark.go:35-42 | a 200 reply whose first Content-Length is the text of a positive n gives (n, nil) |
| HttpBench.NonPositiveRefused | http_benchmark.go:46-48 | a Content-Length of zero or less is refused |
| HttpBench.FormatBytes | http_benchmark/http_benchmark.go:45-56 | below 1024 the text `<n> B`; otherwise the loop ends with `div = 1024^(exp+1)`, `div <= bytes < 1024 div`, and the unit letter `"KMGTPE"[exp]` with `exp <= 5`; the second benchmark does the same at http_benchmark.go:65-76 |
| HttpBench.ScaleStep | http_benchmark/http_benchmark.go:51-53 | one loop step keeps `div n <= bytes < div (n + 1)` with div scaled and n divided |
| HttpBench.ExponentBound | http_benchmark/http_benchmark.go:55 | a divisor `1024^(e+1)` within the int64 range has `e < 6`, so `"KMGTPE"[exp]` is in range |
| HttpBench.SeventhPower | http_benchmark/http_benchmark.go:55 | `1024^7` is 2^70, beyond the int64 range |
| HttpBench.PowMonotone | http_benchmark/http_benchmark.go:51-53 | powers of 1024 grow with the exponent |
| HttpBench.UnitUnique | http_benchmark/http_benchmark.go:50-55 | only one exponent puts bytes between `1024^(e+1)` and `1024^(e+2)` |
| HttpBench.HeaderFlagList.constructor | http_benchmark/http_benchmark.go:76 | the flag list starts empty |
| HttpBench.HeaderFlagList.Set | http_benchmark/http_benchmark.go:64-67 | `Set` appends the value at the end and returns no error |
| HttpBench.TrimLeft | http_benchmark/http_benchmark.go:113 | the result is a suffix, everything cut is white space, and it does not start with white space |
| HttpBench.TrimRight | http_benchmark/http_benchmark.go:113 | the result is a prefix, everything cut is white space, and it does not end with white space |
| HttpBench.TrimSpace | http_benchmark/http_benchmark.go:113-114 | `strings.TrimSpace` gives text no longer than its input with neither end on white space |
| HttpBench.TrimSpaceAddsNothing | http_benchmark/http_benchmark.go:113-114 | trimming adds no character |
| HttpBench.TrimmedFixed | http_benchmark/http_benchmark.go:113-114 | trimmed text is left unchanged |
| HttpBench.TrimPadded | http_benchmark/http_benchmark.go:113-114 | white space around trimmed text is all removed |
| HttpBench.TrimLeftOfPadded | http_benchmark/http_benchmark.go:113 | leading white space before a non-space is removed and the rest kept |
| HttpBench.TrimLeftPadded | http_benchmark/http_benchmark.go:113 | leading white space is removed entirely |
| HttpBench.TrimRightPadded | http_benchmark/http_benchmark.go:113 | trailing white space is removed entirely |
| HttpBench.ParseHeaderFlag | http_benchmark/http_benchmark.go:107-119 | an accepted header has non-empty key and value, without "=" and without white space at either end |
| HttpBench.HeaderFlagRoundTrip | http_benchmark/http_benchmark.go:107-119 | `K=V` with white space around either side is accepted as (K, V) |
| HttpBench.SplitPair | http_benchmark/http_benchmark.go:108-119 | one "=" between two texts without one gives the two trimmed texts |
| HttpBench.SpacesHaveNoEquals | http_benchmark/http_benchmark.go:113 | white space holds no "=" |
| HttpBench.SecondEqualsRefused | http_benchmark/http_benchmark.go:108-112 | a value with two "=" is refused |
| HttpBench.NoEqualsRefused | http_benchmark/http_benchmark.go:108-112 | a value without "=" is refused |
| HttpBench.ParseHeaders | http_benchmark/http_benchmark.go:105-122 | the loop succeeds iff every flag is a valid `K=V`; then the headers are the parsed flags in command-line order; otherwise the usage message |
| HttpBench.Total | http_benchmark/http_benchmark.go:239-242 | the total loop computes the sum of the values; the second benchmark does the same at http_benchmark.go:134-137 |
| HttpBench.Minimum | http_benchmark/http_benchmark.go:250-262 | the min closure: 0 without values, otherwise a value of the list no greater than any; the second benchmark does the same at http_benchmark.go:145-157 |
| HttpBench.Maximum | http_benchmark/http_benchmark.go:263-275 | the max closure: at least 0 and every value, and one of the values unless it is 0; the second benchmark does the same at http_benchmark.go:158-170 |
| HttpBench.Statistics | http_benchmark/http_benchmark.go:243-275 | the average is the total divided by the count truncated toward zero (0 without successes); max is at least 0 and one of the values unless it is 0; without successes min is 0, otherwise min <= average <= max with min in the list and every value between min and max; the second benchmark does the same at http_benchmark.go:172-208 |
| HttpBench.GoDiv | http_benchmark/http_benchmark.go:247 | Go's `/` truncates toward zero: d times the quotient is within one d of the dividend, on the dividend's side of zero |
| HttpBench.Average | http_benchmark/http_benchmark.go:243-248 | the average closure: 0 without results, otherwise the total divided by the count truncated toward zero; the second benchmark does the same at http_benchmark.go:138-144 |
| HttpBench.AverageBetween | http_benchmark/http_benchmark.go:243-248 | the truncated average of values between lo and hi lies between lo and hi |
| HttpBench.SumBetween | http_benchmark/http_benchmark.go:239-242 | the sum of n values between lo and hi lies between `n lo` and `n hi` |
| HttpBench.DivBetween | http_benchmark.go:138-144 | Go's truncating division of a value between `d lo` and `d hi` by d lies between lo and hi |
| HttpBench.MulCancel | http_benchmark.go:138-144 | `d x < d y + d` with d positive gives `x <= y` |

## Left out

- Sockets, `select` timeouts, `sendto`/`recvfrom`, argument parsing, printing and exit
  paths are I/O. The received bytes are a parameter of the reply-side members.
- Concurrency is not modelled:
  - goroutines, the WaitGroup and the semaphore;
  - the results channel and its partition into successes and failures
    (http_benchmark/http_benchmark.go:145-186);
  - the worker pool that appends to shared slices without synchronisation
    (http_benchmark.go:53-63, 103-122).
  The reductions take the list of successes as given.
- Floating point is not modelled: the `%.1f` rendering of `formatBytes`, the
  success/failure rates and requests per second. `FormatBytes` returns the unit and
  divisor it would print with.
- `headerFlagList.String` and the `flag` registration are printing support.
- `HttpBench.Total`: does not model the 64-bit wrap-around of the Go totals.
  `HttpBench.Statistics` likewise assumes the total does not overflow.
- `HttpBench.Minimum`: requires the values to be int64, as Go's types guarantee. The
  `1<<63 - 1` start value is the int64 maximum.
- Strings in Go are sequences of characters. The UTF-8 bytes and invalid encodings are
  not modelled, and `IsSpace` is `unicode.IsSpace` listed out.
- The C header's bit-field overlay is modelled by the explicit shift/mask layout a
  little-endian compiler produces. The host is fixed little-endian for `dns_client.c`.
- `host_copy[strlen(host)]` in `hostname_to_qname` has no room for the terminator
  (dns_client.c:157). The model copies the hostname without that overrun.
- `DnsC.HostnameToQname` requires the hostname to have no NUL byte (a C string cannot
  hold one) and `strlen(host) + 2` to fit a short. The `(short)` cast itself is
  `DnsC.ToShort`.
- `DnsC.ExtractQuestion`: requires the reply name's labels to hold no zero byte. With
  one, the copy loop writes past the name buffer (`DnsC.ZeroByteOverruns`). That is
  undefined behaviour in C, so no result is modelled.
- `DnsC.ExtractName`: requires the same, for the same reason.
- `DnsC.DecodeResponse`: requires the same, for the same reason.
- `DnsC.BuildRequest`: when `message_len` wraps negative, `malloc` gives no buffer and
  `hydrate_message` would write through NULL. The model returns no message there
  rather than modelling the crash.
- Labels are 1 to 63 bytes (section 2.3.4 of RFC 1035). This is a precondition of the
  decoders, not something the code checks.
- Compression pointers (section 4.1.4 of RFC 1035) are masked but never followed. The
  C reply side requires the buffer to hold the full question and answers, because the
  code does no bounds checks.
- The C reply header is read into a separate object rather than aliased onto the
  buffer. The buffer is only read afterwards.
- `DnsC.CopyName` and `DnsC.QuestionWords` take the read-only reply buffer as a
  sequence.
- The root name (a zero byte right after the header) would make C's
  `malloc(qname_len - 1)` ask for -1 bytes. The corrected allocation gives it one byte.
- Ping checksum lemmas that compare with RFC 1071 require packets of at most 65535
  bytes, which an IPv4 datagram cannot exceed.
- `inet_ntoa` is modelled by its documented output (`DnsC.InetNtoa`) since it is a
  library call.

## Findings

| source | as written | input that shows it | evidently intended | confidence | as-written member | corrected member |
|---|---|---|---|---|---|---|
| dns_client.py:160-167 | `len_counter` is never reset, so after the first label it keeps counting across labels | the name "a.bc": the reply's question reads back as "a.b" | reset `len_counter` to 0 when a label ends, so every well-formed name reads back | not executed | DnsPy.MisSplitExample | DnsPy.CorrectedRoundTrip |
| ping_client.py:52-54 | the odd trailing byte is added unshifted, whatever the host byte order | the one-byte payload `01` on a big-endian host gives 0xFFFE instead of 0xFEFF | pad the odd byte with a zero byte, as RFC 1071 prescribes | not executed | Ping.BigEndianOddByte | Ping.CorrectedChecksum |
| dns_client.c:231 | `malloc(qname_len - 1)` for the dotted name | any name, e.g. `\x01a\x00`: one byte is allocated but "a" and its terminator take two | allocate `qname_len` bytes (one for the root name) | not executed | DnsC.NameAllocationShort | DnsC.ExtractQuestion |
| dns_client.c:141 | `strcpy` of the `inet_ntoa` text into `char ip_addr[4]` | any address, e.g. 0.0.0.0, whose text takes 8 bytes | a buffer of INET_ADDRSTRLEN (16) bytes | not executed | DnsC.IpTextOverflows | DnsC.ExtractResourceRecord |
