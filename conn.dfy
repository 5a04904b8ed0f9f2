/** The decoder of the kernel's TCP socket table (`/proc/net/tcp`): one
    `Connection` per data line with at least ten whitespace-separated fields.
    Opening and reading the file are outside the model; `FetchConnections`
    receives the lines the scanner would produce. The text of addresses that
    are not four bytes long comes from Go's `net.IP.String`, which is not part
    of this model: it is the parameter `formatOther`. */
module Conn {
  import opened Strings
  import opened Hex
  import opened Strconv

  datatype Option<T> = None | Some(value: T)

  /** One decoded line of the socket table; every field is text. */
  datatype Connection = Connection(
    localIp: string,
    localPort: string,
    remoteIp: string,
    remotePort: string,
    state: string,
    inode: string)

  /* ---------------- getip: reverse the decoded bytes, then format ---------------- */

  function Reversed<T>(s: seq<T>): (r: seq<T>)
    ensures |r| == |s|
  {
    if s == [] then [] else [s[|s| - 1]] + Reversed(s[..|s| - 1])
  }

  /** The whole sequence is mirrored: element k comes from position |s|-1-k. */
  lemma {:induction false} ReversedAt<T>(s: seq<T>, k: nat)
    requires k < |s|
    ensures Reversed(s)[k] == s[|s| - 1 - k]
  {
    if k > 0 {
      ReversedAt(s[..|s| - 1], k - 1);
    }
  }

  /** Reversing twice gives the original back. */
  lemma ReversedTwice<T>(s: seq<T>)
    ensures Reversed(Reversed(s)) == s
  {
    var r := Reversed(s);
    forall k | 0 <= k < |s|
      ensures Reversed(r)[k] == s[k]
    {
      ReversedAt(r, k);
      ReversedAt(s, |s| - 1 - k);
    }
  }

  /** The decimal octets of a four-byte address. */
  function Octets(q: seq<byte>): (parts: seq<string>)
    requires |q| == 4
    ensures |parts| == 4
    ensures forall i :: 0 <= i < 4 ==> parts[i] == FormatNat(q[i] as nat)
  {
    [FormatNat(q[0] as nat), FormatNat(q[1] as nat), FormatNat(q[2] as nat), FormatNat(q[3] as nat)]
  }

  /** Dotted-quad text, as `net.IP.String` writes a four-byte address. */
  function DottedQuad(q: seq<byte>): string
    requires |q| == 4
  {
    Join(Octets(q), '.')
  }

  lemma NoDotInDecimal(n: nat)
    ensures '.' !in FormatNat(n)
  {
  }

  /** The dotted-quad text splits at its dots into the four octets. */
  lemma DottedQuadSplit(q: seq<byte>)
    requires |q| == 4
    ensures Split(DottedQuad(q), '.') == Octets(q)
  {
    forall i | 0 <= i < 4 ensures '.' !in Octets(q)[i] {
      NoDotInDecimal(q[i] as nat);
    }
    JoinSplit(Octets(q), '.');
  }

  /** Distinct four-byte addresses have distinct texts. */
  lemma DottedQuadInjective(p: seq<byte>, q: seq<byte>)
    requires |p| == 4 && |q| == 4
    ensures DottedQuad(p) == DottedQuad(q) ==> p == q
  {
    if DottedQuad(p) == DottedQuad(q) {
      DottedQuadSplit(p);
      DottedQuadSplit(q);
      forall i | 0 <= i < 4 ensures p[i] == q[i] {
        assert Octets(p)[i] == Octets(q)[i];
        FormatNatInjective(p[i] as nat, q[i] as nat);
      }
    }
  }

  /** `net.IP(h).String()`: dotted quad for four bytes, the library's
      formatting otherwise. */
  function FormatIp(h: seq<byte>, formatOther: seq<byte> -> string): string {
    if |h| == 4 then DottedQuad(h) else formatOther(h)
  }

  /** What `getip` returns for an address field. */
  function IpText(iphex: string, formatOther: seq<byte> -> string): string {
    FormatIp(Reversed(Decode(iphex)), formatOther)
  }

  /** Once the two ends have met, swapping pairs from the outside in has
      reversed the buffer. */
  lemma SwappedToMiddle(r: seq<byte>, d: seq<byte>, i: nat)
    requires |r| == |d| && |d| - 1 - i <= i <= |d| - 1 - i + 2
    requires forall k :: 0 <= k < i ==> r[k] == d[|d| - 1 - k] && r[|d| - 1 - k] == d[k]
    requires forall k :: i <= k <= |d| - 1 - i ==> r[k] == d[k]
    ensures r == Reversed(d)
  {
    var n := |d|;
    forall k | 0 <= k < n
      ensures r[k] == Reversed(d)[k]
    {
      ReversedAt(d, k);
      if k >= i {
        assert r[n - 1 - (n - 1 - k)] == d[n - 1 - k];
      }
    }
  }

  /** `getip`: decode the hex into a buffer, reverse the whole buffer in place
      with two indices moving towards each other, and format it. */
  method GetIp(iphex: string, formatOther: seq<byte> -> string) returns (text: string)
    ensures text == IpText(iphex, formatOther)
  {
    var decoded := Decode(iphex);
    var h := new byte[|decoded|](k requires 0 <= k < |decoded| => decoded[k]);
    var n := h.Length;
    var i, j := 0, n - 1;
    while i < j
      invariant 0 <= i && j == n - 1 - i && i <= j + 2
      invariant forall k :: 0 <= k < i ==> h[k] == decoded[n - 1 - k] && h[n - 1 - k] == decoded[k]
      invariant forall k :: i <= k <= j ==> h[k] == decoded[k]
    {
      h[i], h[j] := h[j], h[i];
      i, j := i + 1, j - 1;
    }
    SwappedToMiddle(h[..], decoded, i);
    text := FormatIp(h[..], formatOther);
  }

  /** The kernel writes an IPv4 address a.b.c.d as the hex of the bytes
      d, c, b, a; decoding that field gives back "a.b.c.d". */
  lemma IpV4RoundTrip(a: byte, b: byte, c: byte, d: byte, formatOther: seq<byte> -> string)
    ensures IpText(Encode([d, c, b, a]), formatOther) == DottedQuad([a, b, c, d])
  {
    var raw := [d, c, b, a];
    DecodeEncode(raw);
    forall k | 0 <= k < 4 ensures Reversed(raw)[k] == [a, b, c, d][k] {
      ReversedAt(raw, k);
    }
    assert Reversed(raw) == [a, b, c, d];
  }

  /** For any other length (a 16-byte IPv6 field in particular) the formatter
      receives the decoded bytes reversed as one buffer, not word by word. */
  lemma IpTextWholeBufferReversal(iphex: string, formatOther: seq<byte> -> string)
    requires |Decode(iphex)| != 4
    ensures IpText(iphex, formatOther) == formatOther(Reversed(Decode(iphex)))
    ensures forall k :: 0 <= k < |Decode(iphex)| ==>
              Reversed(Decode(iphex))[k] == Decode(iphex)[|Decode(iphex)| - 1 - k]
  {
    forall k | 0 <= k < |Decode(iphex)|
      ensures Reversed(Decode(iphex))[k] == Decode(iphex)[|Decode(iphex)| - 1 - k]
    {
      ReversedAt(Decode(iphex), k);
    }
  }

  /* ---------------- parse: split "addr:port" ---------------- */

  /** What `parse` renders for a port field: the signed 16-bit hex parse,
      error discarded, printed in decimal. */
  function PortText(porthex: string): string {
    FormatInt(ParseHexInt16(porthex))
  }

  /** What `parse` returns for an `addrhex:porthex` token: the pieces before
      the first colon and between the first and second colon. */
  function Endpoint(token: string, formatOther: seq<byte> -> string): (string, string)
    requires ':' in token
  {
    var parts := Split(token, ':');
    (IpText(parts[0], formatOther), PortText(parts[1]))
  }

  /** `parse`. A token without a colon makes the source index out of range,
      so the colon is required. */
  method ParseEndpoint(token: string, formatOther: seq<byte> -> string) returns (ip: string, port: string)
    requires ':' in token
    ensures (ip, port) == Endpoint(token, formatOther)
  {
    var parts := Split(token, ':');
    ip := GetIp(parts[0], formatOther);
    port := PortText(parts[1]);
  }

  /* ---------------- tcpState ---------------- */

  const StateNames: map<string, string> := map[
    "01" := "ESTABLISHED",
    "02" := "SYN_SENT",
    "03" := "SYN_RECV",
    "04" := "FIN_WAIT1",
    "05" := "FIN_WAIT2",
    "06" := "TIME_WAIT",
    "07" := "CLOSE",
    "08" := "CLOSE_WAIT",
    "09" := "LAST_ACK",
    "0A" := "LISTEN",
    "0B" := "CLOSING"
  ]

  /** `tcpState`: the name of a known state code, any other code unchanged. */
  function TcpState(code: string): string {
    if code in StateNames then StateNames[code] else code
  }

  /* ---------------- FetchConnections ---------------- */

  /** A data line yields a record exactly when it has at least ten fields. */
  predicate Accepted(line: string) {
    |Fields(line)| >= 10
  }

  /** The source indexes the two `addr:port` tokens of an accepted line
      without checking for the colon. */
  predicate Parsable(line: string) {
    Accepted(line) ==> ':' in Fields(line)[1] && ':' in Fields(line)[2]
  }

  /** The record built from the fields of an accepted line. */
  function Record(fields: seq<string>, formatOther: seq<byte> -> string): Connection
    requires |fields| >= 10 && ':' in fields[1] && ':' in fields[2]
  {
    var (localIp, localPort) := Endpoint(fields[1], formatOther);
    var (remoteIp, remotePort) := Endpoint(fields[2], formatOther);
    Connection(localIp, localPort, remoteIp, remotePort, TcpState(fields[3]), fields[9])
  }

  /** One data line: a record, or nothing for a short line. */
  function DecodeLine(line: string, formatOther: seq<byte> -> string): Option<Connection>
    requires Parsable(line)
  {
    var fields := Fields(line);
    if |fields| < 10 then None else Some(Record(fields, formatOther))
  }

  /** The records of the data lines, in order. */
  function DecodeBody(body: seq<string>, formatOther: seq<byte> -> string): seq<Connection>
    requires forall i :: 0 <= i < |body| ==> Parsable(body[i])
  {
    if body == [] then []
    else
      var rest := DecodeBody(body[..|body| - 1], formatOther);
      match DecodeLine(body[|body| - 1], formatOther)
      case None => rest
      case Some(c) => rest + [c]
  }

  predicate DataLinesParsable(lines: seq<string>) {
    forall i :: 1 <= i < |lines| ==> Parsable(lines[i])
  }

  /** What `FetchConnections` returns for the lines of the file: the header
      line is skipped, then every data line is decoded. */
  function Snapshot(lines: seq<string>, formatOther: seq<byte> -> string): seq<Connection>
    requires DataLinesParsable(lines)
  {
    if lines == [] then [] else DecodeBody(lines[1..], formatOther)
  }

  /** `FetchConnections` after the file is open: skip the first line, split
      each further line into fields, drop it when it has fewer than ten, and
      append the record built from fields 1, 2, 3 and 9. */
  method FetchConnections(lines: seq<string>, formatOther: seq<byte> -> string) returns (conns: seq<Connection>)
    requires DataLinesParsable(lines)
    ensures conns == Snapshot(lines, formatOther)
  {
    conns := [];
    if |lines| == 0 {
      return;
    }
    for i := 1 to |lines|
      invariant conns == DecodeBody(lines[1..i], formatOther)
    {
      ghost var body := lines[1..i + 1];
      assert body[..|body| - 1] == lines[1..i] && body[|body| - 1] == lines[i];
      var fields := Fields(lines[i]);
      if |fields| < 10 {
        assert DecodeLine(lines[i], formatOther) == None;
        continue;
      }
      var localIp, localPort := ParseEndpoint(fields[1], formatOther);
      var remoteIp, remotePort := ParseEndpoint(fields[2], formatOther);
      var state := TcpState(fields[3]);
      var inode := fields[9];
      conns := conns + [Connection(localIp, localPort, remoteIp, remotePort, state, inode)];
    }
    assert lines[1..|lines|] == lines[1..];
  }

  /* ---------------- properties of the decoder ---------------- */

  /** Whatever the first line holds, it is skipped. */
  lemma HeaderIgnored(h1: string, h2: string, body: seq<string>, formatOther: seq<byte> -> string)
    requires forall i :: 0 <= i < |body| ==> Parsable(body[i])
    ensures DataLinesParsable([h1] + body) && DataLinesParsable([h2] + body)
    ensures Snapshot([h1] + body, formatOther) == Snapshot([h2] + body, formatOther) == DecodeBody(body, formatOther)
  {
    assert ([h1] + body)[1..] == body;
    assert ([h2] + body)[1..] == body;
  }

  /** A line yields a record exactly when it has ten or more fields; the
      record's endpoints come from fields 1 and 2, its state is the name of
      field 3, and its inode is field 9 verbatim. */
  lemma DecodeLineFields(line: string, formatOther: seq<byte> -> string)
    requires Parsable(line)
    ensures DecodeLine(line, formatOther).Some? <==> |Fields(line)| >= 10
    ensures DecodeLine(line, formatOther).Some? ==>
              var f, c := Fields(line), DecodeLine(line, formatOther).value;
              && (c.localIp, c.localPort) == Endpoint(f[1], formatOther)
              && (c.remoteIp, c.remotePort) == Endpoint(f[2], formatOther)
              && c.state == TcpState(f[3])
              && c.inode == f[9]
  {
  }

  /** Nine fields are too few, ten are enough, however the fields are padded
      with white space in front, between and after them. */
  lemma FieldCountBoundary(gaps: seq<string>, ws: seq<string>, trail: string,
                           formatOther: seq<byte> -> string)
    requires |gaps| == |ws| && Separators(gaps) && AllSpace(trail)
    requires forall i :: 0 <= i < |ws| ==> IsWord(ws[i])
    requires |ws| == 9 || (|ws| == 10 && ':' in ws[1] && ':' in ws[2])
    ensures Parsable(Laid(gaps, ws, trail))
    ensures DecodeLine(Laid(gaps, ws, trail), formatOther).Some? <==> |ws| == 10
  {
    var line := Laid(gaps, ws, trail);
    FieldsOfLaid(gaps, ws, trail);
    assert Parsable(line);
    DecodeLineFields(line, formatOther);
  }

  /** The data lines that have at least ten fields, in their order. */
  function AcceptedLines(body: seq<string>): (accepted: seq<string>)
    requires forall i :: 0 <= i < |body| ==> Parsable(body[i])
    ensures |accepted| <= |body|
    ensures forall k :: 0 <= k < |accepted| ==> Accepted(accepted[k]) && Parsable(accepted[k])
  {
    if body == [] then []
    else
      var last := body[|body| - 1];
      AcceptedLines(body[..|body| - 1]) + if Accepted(last) then [last] else []
  }

  /** A line is among the accepted lines exactly when it is a data line with
      at least ten fields. */
  lemma {:induction false} AcceptedLinesMembership(body: seq<string>, line: string)
    requires forall i :: 0 <= i < |body| ==> Parsable(body[i])
    ensures line in AcceptedLines(body) <==> line in body && Accepted(line)
  {
    if body != [] {
      var init := body[..|body| - 1];
      AcceptedLinesMembership(init, line);
      assert body == init + [body[|body| - 1]];
    }
  }

  /** One record per accepted line, in input order: the k-th record is the
      record of the k-th data line that has at least ten fields. */
  lemma {:induction false} DecodeBodyOnePerAcceptedLine(body: seq<string>, formatOther: seq<byte> -> string)
    requires forall i :: 0 <= i < |body| ==> Parsable(body[i])
    ensures |DecodeBody(body, formatOther)| == |AcceptedLines(body)|
    ensures forall k :: 0 <= k < |AcceptedLines(body)| ==>
              DecodeBody(body, formatOther)[k] == Record(Fields(AcceptedLines(body)[k]), formatOther)
  {
    if body != [] {
      var init, last := body[..|body| - 1], body[|body| - 1];
      DecodeBodyOnePerAcceptedLine(init, formatOther);
      if Accepted(last) {
        assert DecodeBody(body, formatOther) == DecodeBody(init, formatOther) + [Record(Fields(last), formatOther)];
        assert AcceptedLines(body) == AcceptedLines(init) + [last];
      } else {
        assert DecodeBody(body, formatOther) == DecodeBody(init, formatOther);
        assert AcceptedLines(body) == AcceptedLines(init);
      }
    }
  }

  /** The number of records is the number of data lines with at least ten fields. */
  lemma SnapshotLength(lines: seq<string>, formatOther: seq<byte> -> string)
    requires |lines| >= 1 && DataLinesParsable(lines)
    ensures forall i :: 0 <= i < |lines[1..]| ==> Parsable(lines[1..][i])
    ensures |Snapshot(lines, formatOther)| == |AcceptedLines(lines[1..])|
  {
    DecodeBodyOnePerAcceptedLine(lines[1..], formatOther);
  }

  /* ---------------- properties of tcpState ---------------- */

  /** The eleven codes of the table and an unknown one. */
  lemma TcpStateTable()
    ensures TcpState("01") == "ESTABLISHED" && TcpState("02") == "SYN_SENT"
    ensures TcpState("03") == "SYN_RECV" && TcpState("04") == "FIN_WAIT1"
    ensures TcpState("05") == "FIN_WAIT2" && TcpState("06") == "TIME_WAIT"
    ensures TcpState("07") == "CLOSE" && TcpState("08") == "CLOSE_WAIT"
    ensures TcpState("09") == "LAST_ACK" && TcpState("0A") == "LISTEN"
    ensures TcpState("0B") == "CLOSING" && TcpState("0C") == "0C"
  {
  }

  lemma StateNamesAreLong()
    ensures forall code :: code in StateNames ==> |StateNames[code]| >= 5
  {
  }

  /** For a two-character code, the state text is one of the names exactly
      when the code is in the table; otherwise it is the code itself. */
  lemma TcpStateKnownIffInTable(code: string)
    requires |code| == 2
    ensures TcpState(code) in StateNames.Values <==> code in StateNames
    ensures code !in StateNames ==> TcpState(code) == code
  {
    StateNamesAreLong();
  }

  /** No information is lost: distinct two-character codes give distinct
      state texts. */
  lemma TcpStateInjective(c1: string, c2: string)
    requires |c1| == 2 && |c2| == 2
    ensures TcpState(c1) == TcpState(c2) ==> c1 == c2
  {
    TcpStateKnownIffInTable(c1);
    TcpStateKnownIffInTable(c2);
  }

  /* ---------------- the documented sample line ---------------- */

  lemma SampleAddresses(formatOther: seq<byte> -> string)
    ensures IpText("0100007F", formatOther) == "127.0.0.1"
    ensures IpText("00000000", formatOther) == "0.0.0.0"
  {
    SampleLoopbackAddress(formatOther);
    SampleUnspecifiedAddress(formatOther);
  }

  lemma SampleLoopbackAddress(formatOther: seq<byte> -> string)
    ensures IpText("0100007F", formatOther) == "127.0.0.1"
  {
    assert Encode([1, 0, 0, 127]) == "0100007F";
    IpV4RoundTrip(127, 0, 0, 1, formatOther);
    assert FormatNat(127) == "127";
    assert DottedQuad([127, 0, 0, 1]) == "127.0.0.1";
  }

  lemma SampleUnspecifiedAddress(formatOther: seq<byte> -> string)
    ensures IpText("00000000", formatOther) == "0.0.0.0"
  {
    assert Encode([0, 0, 0, 0]) == "00000000";
    IpV4RoundTrip(0, 0, 0, 0, formatOther);
    assert DottedQuad([0, 0, 0, 0]) == "0.0.0.0";
  }

  lemma SamplePorts()
    ensures PortText("1F90") == "8080"
    ensures PortText("0000") == "0"
  {
    SamplePort8080();
    SamplePortZero();
  }

  lemma SamplePort8080()
    ensures PortText("1F90") == "8080"
  {
    assert HexValue("90") == 0x90;
    assert HexValue("F90") == 0xF90;
    assert HexValue("1F90") == 8080;
    PortBelowSignBit("1F90");
    Decimal8080();
  }

  lemma Decimal8080()
    ensures FormatNat(8080) == "8080"
  {
    assert FormatNat(8) == "8";
    assert FormatNat(80) == FormatNat(8) + "0";
    assert FormatNat(808) == FormatNat(80) + "8";
    assert FormatNat(8080) == FormatNat(808) + "0";
  }

  lemma SamplePortZero()
    ensures PortText("0000") == "0"
  {
    assert HexValue("0000") == 0;
    PortBelowSignBit("0000");
  }

  /** The fields of the sample line in the comment above `parse`
      ("0: 0100007F:1F90 00000000:0000 0A ... 1000 0 12345"). */
  const SampleFields := ["0:", "0100007F:1F90", "00000000:0000", "0A", "00000000:00000000",
                         "00:00000000", "00000000", "1000", "0", "12345"]

  /** The white space in front of each field of the sample line, as the
      comment spaces it: none before the first field, two spaces before
      "1000", eight before "0" and one elsewhere. */
  const SampleGaps := ["", " ", " ", " ", " ", " ", " ", "  ", "        ", " "]

  /** The sample line: each field behind its run of white space. */
  const SampleText := Laid(SampleGaps, SampleFields, "")

  lemma SampleWords()
    ensures forall i :: 0 <= i < |SampleFields| ==> IsWord(SampleFields[i])
  {
    var ws := SampleFields;
    forall i | 0 <= i < |ws| ensures IsWord(ws[i]) {
      PrintableIsWord(ws[i]);
    }
  }

  lemma SampleSeparators()
    ensures Separators(SampleGaps)
  {
    var g := SampleGaps;
    forall i | 0 <= i < |g| ensures AllSpace(g[i]) && (i > 0 ==> g[i] != []) {
      assert forall k :: 0 <= k < |g[i]| ==> g[i][k] == ' ';
    }
  }

  lemma SampleLineFields()
    ensures Fields(SampleText) == SampleFields
  {
    SampleWords();
    SampleSeparators();
    FieldsOfLaid(SampleGaps, SampleFields, "");
  }

  lemma SampleEndpoints(formatOther: seq<byte> -> string)
    ensures Endpoint("0100007F:1F90", formatOther) == ("127.0.0.1", "8080")
    ensures Endpoint("00000000:0000", formatOther) == ("0.0.0.0", "0")
  {
    SampleLocalEndpoint(formatOther);
    SampleRemoteEndpoint(formatOther);
  }

  lemma SampleLocalEndpoint(formatOther: seq<byte> -> string)
    ensures Endpoint("0100007F:1F90", formatOther) == ("127.0.0.1", "8080")
  {
    JoinSplit(["0100007F", "1F90"], ':');
    assert Join(["0100007F", "1F90"], ':') == "0100007F:1F90";
    SampleAddresses(formatOther);
    SamplePorts();
  }

  lemma SampleRemoteEndpoint(formatOther: seq<byte> -> string)
    ensures Endpoint("00000000:0000", formatOther) == ("0.0.0.0", "0")
  {
    JoinSplit(["00000000", "0000"], ':');
    assert Join(["00000000", "0000"], ':') == "00000000:0000";
    SampleAddresses(formatOther);
    SamplePorts();
  }


  lemma SampleParsable()
    requires Fields(SampleText) == SampleFields
    ensures Parsable(SampleText)
  {
  }

  lemma SampleRecord(formatOther: seq<byte> -> string)
    requires Fields(SampleText) == SampleFields && Parsable(SampleText)
    ensures DecodeLine(SampleText, formatOther) == Some(Connection("127.0.0.1", "8080", "0.0.0.0", "0", "LISTEN", "12345"))
  {
    var f := SampleFields;
    assert f[1] == "0100007F:1F90" && f[2] == "00000000:0000" && f[3] == "0A" && f[9] == "12345";
    DecodeLineFields(SampleText, formatOther);
    SampleEndpoints(formatOther);
    TcpStateTable();
    var c := DecodeLine(SampleText, formatOther).value;
    assert c.localIp == "127.0.0.1" && c.localPort == "8080";
    assert c.remoteIp == "0.0.0.0" && c.remotePort == "0";
    assert c.state == "LISTEN" && c.inode == "12345";
  }

  /** The listening socket on 127.0.0.1:8080 from the comment in the source. */
  lemma SampleLine(formatOther: seq<byte> -> string)
    ensures Parsable(SampleText)
    ensures DecodeLine(SampleText, formatOther) == Some(Connection("127.0.0.1", "8080", "0.0.0.0", "0", "LISTEN", "12345"))
  {
    SampleLineFields();
    SampleParsable();
    SampleRecord(formatOther);
  }
}
