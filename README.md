# netwatch socket-table decoder and locality filter, in Dafny

netwatch is a terminal monitor for the TCP sockets of a Linux host. This
project models its two precise pieces and proves properties about them.

- **The decoder** (`conn/parse.go`) reads the kernel's socket table.
  - It skips the header line and splits each further line into
    whitespace-separated fields.
  - It drops any line with fewer than ten fields.
  - From the rest it builds a `Connection` out of fields 1, 2, 3 and 9:
    - An `addrhex:porthex` token is split at the colon. The address bytes
      are hex-decoded, the whole buffer is reversed in place with a
      two-pointer swap, and the result is printed as an IP.
    - The port goes through a signed 16-bit hex parse whose error is
      ignored, and is printed in decimal.
    - The state code is looked up in a table of eleven names.
- **The locality filter** (`ui/view.go`).
  - `isLocalAddress` is an ordered chain of exact-text and prefix tests on
    the remote address.
  - `filterConnections` keeps all connections, only the local ones, or
    only the public ones, in their original order.

## Modules

- `strings.dfy` (`Strings`): Go's `strings.Fields` (with `unicode.IsSpace`),
  `strings.Split` for a one-character separator, and `strings.HasPrefix`,
  together with the inverses used in round-trip lemmas.
- `hex.dfy` (`Hex`): `hex.DecodeString` with its error dropped, and the
  upper-case encoding the kernel writes.
- `strconv.dfy` (`Strconv`): `strconv.ParseInt(s, 16, 16)` and the decimal
  rendering of `%d`.
  - The parse follows Go exactly: an optional sign, then a per-character
    syntax check before the overflow check at the 64-bit cutoff.
  - On a syntax error the result is 0.
  - On a range error the result saturates to 0x7FFF or -0x8000.
- `conn.dfy` (`Conn`): the `Connection` record, `getip`, `parse`,
  `tcpState` and the line loop of `FetchConnections`.
  - `getip` is a method over an `array` with the swap loop.
  - `FetchConnections` is a method looping over the file's lines.
  - Each method is proved equal to a specification function.
- `view.dfy` (`View`): `isLocalAddress` as a predicate, and
  `filterConnections` as a method with its loop.
  - The method is proved equal to the function `Filtered`.
  - It also contains a numeric reference for the address blocks that the
    text test stands for.

## Model

| member | source | states |
|---|---|---|
| Strings.Fields | conn/parse.go:40 | every field is a non-empty run of non-space characters |
| Strings.FieldsSkipsRun | conn/parse.go:40 | a run of white space in front of a text adds no field |
| Strings.FieldsWordThen | conn/parse.go:40 | a word followed by white space, or by nothing, is the next field |
| Strings.FieldsOfLaid | conn/parse.go:40 | for words laid out with any white space in front, any non-empty white space between, and any white space after, the fields are exactly those words |
| Strings.FieldsLayout | conn/parse.go:40 | every string is its fields laid out in that way, so the fields of any text are its maximal runs of non-space characters, in order |
| Strings.Split | conn/parse.go:68 | there is at least one piece and no piece contains the separator; there are two or more pieces exactly when the separator occurs |
| Strings.SplitJoin | conn/parse.go:68 | joining the pieces with the separator gives the input back |
| Strings.JoinSplit | ui/view.go:220 | splitting dot-free pieces joined with dots gives the pieces back |
| Hex.Decode | conn/parse.go:79 | decoding yields at most one byte per two characters |
| Hex.DecodeEncode | conn/parse.go:79 | decoding the upper-case hex of any bytes gives those bytes |
| Hex.EncodeDecode | conn/parse.go:79 | on even-length upper-case hex every pair becomes a byte, and re-encoding gives the text back |
| Strconv.ParseHexInt16 | conn/parse.go:73 | the value ParseInt returns always lies in the signed 16-bit range |
| Strconv.DecimalValueOfFormatNat | conn/parse.go:75 | the decimal text of n denotes n |
| Strconv.FormatNatInjective | conn/parse.go:75 | distinct numbers have distinct decimal texts |
| Strconv.FormatNatLeadingZero | ui/view.go:224-228 | only zero is printed with a leading 0 |
| Strconv.ScanHexValue | conn/parse.go:73 | without overflow, the digit loop of the parse computes the big-endian value of the digits |
| Strconv.ScanHexSyntax | conn/parse.go:73 | a non-hex character that is reached before any overflow makes the parse a syntax error |
| Strconv.ParseUintHexValue | conn/parse.go:73 | one to fifteen hex digits parse to their value |
| Strconv.PortBelowSignBit | conn/parse.go:73-75 | a four-digit port below 0x8000 renders as the decimal text of its value |
| Strconv.PortSaturates | conn/parse.go:73-75 | a four-digit port at or above 0x8000 parses to 0x7FFF and renders as "32767" |
| Strconv.PortValue | conn/parse.go:73-75 | a four-hex-digit port field denotes a number below 0x10000; the parse returns it below 0x8000 and 0x7FFF from there on |
| Strconv.PortSyntaxError | conn/parse.go:73-75 | an empty port field, or one with a non-hex character, parses to 0 and renders as "0" |
| Conn.ReversedAt | conn/parse.go:80-82 | position k of the reversal holds the element at position n-1-k |
| Conn.ReversedTwice | conn/parse.go:80-82 | reversing twice gives back the original buffer |
| Conn.SwappedToMiddle | conn/parse.go:80-82 | once the two indices meet, the swapped outer pairs plus the untouched middle are the reversed buffer |
| Conn.GetIp | conn/parse.go:78-85 | the swap loop on the decoded array leaves it equal to the reversal of the decoded bytes; the text is that buffer formatted as an IP |
| Conn.DottedQuadSplit | conn/parse.go:84 | splitting a dotted quad at the dots gives the four decimal octets |
| Conn.DottedQuadInjective | conn/parse.go:84 | distinct addresses print as distinct dotted quads |
| Conn.IpV4RoundTrip | conn/parse.go:78-85 | the hex of bytes d,c,b,a is printed as "a.b.c.d" |
| Conn.IpTextWholeBufferReversal | conn/parse.go:79-84 | for a buffer that is not four bytes long, the formatter gets the whole decoded buffer reversed, byte k from byte n-1-k |
| Conn.ParseEndpoint | conn/parse.go:67-76 | the IP comes from the text before the first colon and the port from the text between the first and second colon |
| Conn.FetchConnections | conn/parse.go:34-61 | the loop returns the records of the data lines in order, skipping the first line and every line with fewer than ten fields |
| Conn.HeaderIgnored | conn/parse.go:36 | the result does not depend on the first line |
| Conn.DecodeLineFields | conn/parse.go:40-58 | a line yields a record exactly when it has ten or more fields; the endpoints come from fields 1 and 2, the state is the table name of field 3, and the inode is field 9 verbatim |
| Conn.FieldCountBoundary | conn/parse.go:40-43 | a line of nine fields is dropped and a line of ten is kept, whatever white space pads the fields in front, between and after them |
| Conn.AcceptedLinesMembership | conn/parse.go:38-43 | a line is accepted exactly when it is a data line with at least ten fields |
| Conn.DecodeBodyOnePerAcceptedLine | conn/parse.go:38-60 | there is one record per accepted line, and the k-th record is built from the k-th accepted line |
| Conn.SnapshotLength | conn/parse.go:36-60 | the number of records is the number of non-header lines with at least ten fields |
| Conn.TcpStateTable | conn/parse.go:87-106 | codes 01..0B map to the eleven names, and the unknown code 0C is returned as is |
| Conn.TcpStateKnownIffInTable | conn/parse.go:102-105 | for a two-character code, the result is a state name exactly when the code is in the table; otherwise it is the code itself |
| Conn.TcpStateInjective | conn/parse.go:87-106 | distinct two-character codes give distinct results |
| Conn.SampleAddresses | conn/parse.go:65 | "0100007F" prints as "127.0.0.1" and "00000000" as "0.0.0.0" |
| Conn.SamplePorts | conn/parse.go:65 | "1F90" renders as "8080" and "0000" as "0" |
| Conn.SampleLine | conn/parse.go:64-65 | the sample line, spaced as in the comment (two spaces before "1000", eight before "0"), decodes to 127.0.0.1:8080 to 0.0.0.0:0, LISTEN, inode 12345 |
| View.Classify | ui/view.go:198-250 | the five-way class is not Public exactly when isLocalAddress holds |
| View.LocalPrefixes | ui/view.go:205-235 | any text starting with "127.", "10.", "192.168." or "169.254." is local |
| View.Block172 | ui/view.go:219-230 | behind the prefix "172." no other rule applies; the address is local exactly when its second dot piece is the text of a number in 16..31 |
| View.Block172Of | ui/view.go:219-230 | "172.b.rest" is local exactly when b is the decimal text of some number in 16..31 |
| View.ZeroPaddedIsNoDecimal | ui/view.go:224-228 | a zero-padded piece such as "016" equals the text of no number |
| View.Block172Samples | ui/view.go:219-230 | 172.16.0.1 and 172.31.255.255 are local; 172.15.0.1, 172.32.0.1 and 172.016.0.1 are not |
| View.OtherSamples | ui/view.go:200-249 | 230.0.0.1, 169.254.1.1, 127.0.0.1, ::1 and 0.0.0.0 are local; 8.8.8.8 is not |
| View.PublicByFirstCharacter | ui/view.go:249 | text whose first character is none of 0, 1, 2 and ':' matches no rule and is public |
| View.MulticastOfDottedQuad | ui/view.go:238-247 | on a printed address, the sixteen multicast prefixes match exactly the first bytes 224..239 |
| View.LocalityOfDottedQuad | ui/view.go:198-250 | on the printed form of any four bytes, the text test agrees with the address blocks 0.0.0.0, 127/8, 10/8, 192.168/16, 172.16/12, 169.254/16 and 224/4 |
| View.FilterConnections | ui/view.go:177-195 | the loop returns the input itself in mode all, and otherwise exactly `Filtered(mode, conns)` |
| View.KeepIsSubsequence | ui/view.go:182-192 | the kept connections are a subsequence of the input, in order |
| View.KeepMembership | ui/view.go:182-192 | a connection is kept exactly when it is in the input and passes the test |
| View.KeepPartition | ui/view.go:183-191 | a test and its negation split the input: the two selections together are a rearrangement of it |
| View.FilteredModes | ui/view.go:177-195 | mode all returns the input; modes local and public return the order-preserving subsequences of local and of public remote addresses, whose lengths add up to the input's and which together hold every connection exactly once |

## Left out

- File access in `FetchConnections`: `os.Open`, `log.Fatal`, the scanner and `defer file.Close()` (conn/parse.go:25-32). The model starts from the sequence of lines the scanner would return. The scanner's line-length limit is not modelled.
- The error results of `FetchConnections`. The only error path ends the process inside `log.Fatal`, so the model returns just the records.
- Conn.GetIp, Conn.IpText: for a decoded buffer that is not 4 bytes long, the text comes from `net.IP.String`. That library routine is not part of this model; it is a parameter `formatOther`, and only the buffer handed to it is specified. This covers 16-byte IPv6 buffers and odd or partial lengths after an ignored decode error.
- Conn.ParseEndpoint, Conn.Endpoint, Conn.FetchConnections: a token without a colon makes `parse` index past the end of the split and panic. The model requires a colon in fields 1 and 2 of every accepted line instead.
- Strconv.PortSyntaxError: states the syntax-error case only for unsigned fields of at most 16 characters. Longer fields can hit the 64-bit range check before the bad character; `ParseHexInt16` models that, but no lemma is stated about it.
- `View` rendering, column layout and state colouring (ui/view.go:56-174), ui/styles.go, ui/update.go, ui/model.go and main.go. These are terminal drawing, key handling and the refresh tick.
- The filter mode is a parameter of `FilterConnections`, because the `Model` type in ui/model.go declares no filter field.
- Process and PID attribution. No code fills it in.
- The sample line from the comment at conn/parse.go:65 is built from its ten fields and the runs of spaces in front of them (`Conn.SampleGaps`), not written as one string literal.

## Where the code and its description differ

This model follows the code in both cases below.

- **Port parse.** The port is parsed as a signed 16-bit value, so a port of 0x8000 or more is shown as "32767" (`PortSaturates`), not as its unsigned value.
- **Bad hex.** A line whose hex cannot be decoded is not skipped. The decode and parse errors are ignored, and the line still yields a record (`PortSyntaxError`, `Hex.Decode`).
