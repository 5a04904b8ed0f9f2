/** The locality test on a connection's remote address and the three-way
    filter over the decoded connections (`isLocalAddress` and
    `filterConnections`); rendering is not modelled. */
module View {
  import opened Strings
  import opened Strconv
  import opened Hex
  import opened Conn

  /* ---------------- isLocalAddress ---------------- */

  /** The second dot-separated piece is exactly the decimal text of one of
      16..31 (so "16" qualifies and "016" does not). */
  predicate InPrivate172Block(ip: string) {
    var parts := Split(ip, '.');
    |parts| >= 2 && exists i: nat | 16 <= i <= 31 :: parts[1] == FormatNat(i)
  }

  /** The sixteen prefixes "224." through "239.". */
  predicate HasMulticastPrefix(ip: string) {
    || HasPrefix(ip, "224.") || HasPrefix(ip, "225.") || HasPrefix(ip, "226.") || HasPrefix(ip, "227.")
    || HasPrefix(ip, "228.") || HasPrefix(ip, "229.") || HasPrefix(ip, "230.") || HasPrefix(ip, "231.")
    || HasPrefix(ip, "232.") || HasPrefix(ip, "233.") || HasPrefix(ip, "234.") || HasPrefix(ip, "235.")
    || HasPrefix(ip, "236.") || HasPrefix(ip, "237.") || HasPrefix(ip, "238.") || HasPrefix(ip, "239.")
  }

  /** `isLocalAddress`: loopback and unspecified addresses, 127/8, 10/8,
      192.168/16, 172.16/12, 169.254/16 and 224/4, all recognised by their
      text; anything else is public. The source's loop over 16..31 is the
      bounded existential of `InPrivate172Block`. */
  predicate IsLocalAddress(ip: string) {
    || ip == "127.0.0.1" || ip == "::1" || ip == "0.0.0.0"
    || HasPrefix(ip, "127.")
    || HasPrefix(ip, "10.")
    || HasPrefix(ip, "192.168.")
    || (HasPrefix(ip, "172.") && InPrivate172Block(ip))
    || HasPrefix(ip, "169.254.")
    || HasMulticastPrefix(ip)
  }

  /** The five classes of the address policy, first match wins. */
  datatype Locality = LoopbackOrUnspecified | Private | LinkLocal | Multicast | Public

  /** The finer classification; its non-public classes are exactly the
      addresses `isLocalAddress` accepts. */
  function Classify(ip: string): (c: Locality)
    ensures c != Public <==> IsLocalAddress(ip)
  {
    if ip == "127.0.0.1" || ip == "::1" || ip == "0.0.0.0" || HasPrefix(ip, "127.") then LoopbackOrUnspecified
    else if HasPrefix(ip, "10.") || HasPrefix(ip, "192.168.") then Private
    else if HasPrefix(ip, "172.") && InPrivate172Block(ip) then Private
    else if HasPrefix(ip, "169.254.") then LinkLocal
    else if HasMulticastPrefix(ip) then Multicast
    else Public
  }

  /** Any text starting with "127.", "10.", "192.168." or "169.254." is local. */
  lemma LocalPrefixes(ip: string)
    requires HasPrefix(ip, "127.") || HasPrefix(ip, "10.") || HasPrefix(ip, "192.168.") || HasPrefix(ip, "169.254.")
    ensures IsLocalAddress(ip)
  {
  }

  /** A string that starts with `p` does not start with a `t` that differs
      from `p` at a position inside both. */
  lemma PrefixExcludes(s: string, p: string, t: string, i: nat)
    requires HasPrefix(s, p) && i < |p| && i < |t| && p[i] != t[i]
    ensures !HasPrefix(s, t)
  {
    assert s[..|p|][i] == s[i];
  }

  /** After the prefix "172." no other rule can apply: the address is local
      exactly when its second piece is the text of 16..31. */
  lemma Block172(ip: string)
    requires HasPrefix(ip, "172.")
    ensures IsLocalAddress(ip) <==> InPrivate172Block(ip)
  {
    PrefixExcludes(ip, "172.", "127.", 1);
    PrefixExcludes(ip, "172.", "10.", 1);
    PrefixExcludes(ip, "172.", "192.168.", 1);
    PrefixExcludes(ip, "172.", "169.254.", 1);
    PrefixExcludes(ip, "172.", "2", 0);
    MulticastStartsWith2(ip);
  }

  /** Every multicast prefix starts with the digit 2. */
  lemma MulticastStartsWith2(ip: string)
    ensures HasMulticastPrefix(ip) ==> HasPrefix(ip, "2")
  {
  }

  /** Text whose first character is none of '0', '1', '2' and ':' matches no
      rule and is public (the default). */
  lemma PublicByFirstCharacter(ip: string)
    requires ip != [] && ip[0] != '0' && ip[0] != '1' && ip[0] != '2' && ip[0] != ':'
    ensures !IsLocalAddress(ip)
  {
    var h := ip[..1];
    assert HasPrefix(ip, h);
    PrefixExcludes(ip, h, "127.", 0);
    PrefixExcludes(ip, h, "10.", 0);
    PrefixExcludes(ip, h, "192.168.", 0);
    PrefixExcludes(ip, h, "172.", 0);
    PrefixExcludes(ip, h, "169.254.", 0);
    PrefixExcludes(ip, h, "2", 0);
    MulticastStartsWith2(ip);
  }

  /** Decimal text never has a leading zero unless it is "0", so a
      zero-padded number is the text of no number at all. */
  lemma ZeroPaddedIsNoDecimal(b: string)
    requires |b| >= 2 && b[0] == '0'
    ensures forall i: nat :: FormatNat(i) != b
  {
    forall i: nat ensures FormatNat(i) != b {
      FormatNatLeadingZero(i);
    }
  }

  lemma JoinFour(a: string, b: string, c: string, d: string)
    ensures Join([a, b, c, d], '.') == a + "." + b + "." + c + "." + d
  {
    assert [a, b, c, d][1..] == [b, c, d] && [b, c, d][1..] == [c, d] && [c, d][1..] == [d];
    assert Join([c, d], '.') == c + "." + d;
    assert Join([b, c, d], '.') == b + "." + (c + "." + d);
  }

  /** The second dot-separated piece of "172.<b>.<rest>" is `b`. */
  lemma SecondPieceOf(a: string, b: string, rest: string)
    requires '.' !in a && '.' !in b
    ensures |Split(a + "." + b + "." + rest, '.')| >= 2
    ensures Split(a + "." + b + "." + rest, '.')[1] == b
  {
    var r := "." + rest;
    SplitPrefix(b, r, '.');
    SplitAfterDot(rest);
    var t := "." + (b + r);
    SplitAfterDot(b + r);
    SplitPrefix(a, t, '.');
    RegroupRight(a, ".", b, ".", rest);
  }

  lemma RegroupRight(a: string, b: string, c: string, d: string, e: string)
    ensures a + b + c + d + e == a + (b + (c + (d + e)))
  {
  }

  /** A leading dot splits off an empty piece. */
  lemma SplitAfterDot(r: string)
    ensures Split("." + r, '.') == [""] + Split(r, '.')
  {
    assert ("." + r)[1..] == r;
  }

  /** An address "172.<b>.<rest>" is local exactly when `b` is the decimal
      text of one of 16..31. */
  lemma Block172Of(b: string, rest: string)
    requires '.' !in b
    ensures IsLocalAddress("172." + b + "." + rest) <==> exists i: nat | 16 <= i <= 31 :: b == FormatNat(i)
  {
    var ip := "172." + b + "." + rest;
    SecondPieceOf("172", b, rest);
    assert "172" + "." + b + "." + rest == ip;
    assert ip[..4] == "172.";
    Block172(ip);
    var parts := Split(ip, '.');
    if exists i: nat | 16 <= i <= 31 :: b == FormatNat(i) {
      var i: nat :| 16 <= i <= 31 && b == FormatNat(i);
      assert parts[1] == FormatNat(i);
    }
  }

  /** The boundaries of the 172.16/12 test, and a zero-padded second octet,
      which the text test does not accept. */
  lemma Block172Samples()
    ensures IsLocalAddress("172.16.0.1") && IsLocalAddress("172.31.255.255")
    ensures !IsLocalAddress("172.15.0.1") && !IsLocalAddress("172.32.0.1")
    ensures !IsLocalAddress("172.016.0.1")
  {
    Block172At16();
    Block172At31();
    Block172At15();
    Block172At32();
    Block172Padded();
  }

  lemma SmallDecimals()
    ensures FormatNat(15) == "15" && FormatNat(16) == "16"
    ensures FormatNat(31) == "31" && FormatNat(32) == "32"
  {
  }

  /** The text of a number outside 16..31 is the text of none of them. */
  lemma OutsideBlockText(v: nat)
    requires v < 16 || v > 31
    ensures forall i: nat | 16 <= i <= 31 :: FormatNat(v) != FormatNat(i)
  {
    forall i: nat | 16 <= i <= 31 ensures FormatNat(v) != FormatNat(i) {
      FormatNatInjective(v, i);
    }
  }

  lemma Block172At16()
    ensures IsLocalAddress("172.16.0.1")
  {
    Block172Of("16", "0.1");
    SmallDecimals();
    assert "172." + "16" + "." + "0.1" == "172.16.0.1";
  }

  lemma Block172At31()
    ensures IsLocalAddress("172.31.255.255")
  {
    Block172Of("31", "255.255");
    SmallDecimals();
    assert "172." + "31" + "." + "255.255" == "172.31.255.255";
  }

  lemma Block172At15()
    ensures !IsLocalAddress("172.15.0.1")
  {
    Block172Of("15", "0.1");
    SmallDecimals();
    OutsideBlockText(15);
    assert "172." + "15" + "." + "0.1" == "172.15.0.1";
  }

  lemma Block172At32()
    ensures !IsLocalAddress("172.32.0.1")
  {
    Block172Of("32", "0.1");
    SmallDecimals();
    OutsideBlockText(32);
    assert "172." + "32" + "." + "0.1" == "172.32.0.1";
  }

  lemma Block172Padded()
    ensures !IsLocalAddress("172.016.0.1")
  {
    Block172Of("016", "0.1");
    ZeroPaddedIsNoDecimal("016");
    assert "172." + "016" + "." + "0.1" == "172.016.0.1";
  }


  /** The other documented cases: multicast, link-local, loopback, and the
      public default. */
  lemma OtherSamples()
    ensures IsLocalAddress("230.0.0.1")
    ensures IsLocalAddress("169.254.1.1")
    ensures IsLocalAddress("127.0.0.1") && IsLocalAddress("::1") && IsLocalAddress("0.0.0.0")
    ensures !IsLocalAddress("8.8.8.8")
  {
    assert "230.0.0.1"[..4] == "230.";
    assert "169.254.1.1"[..8] == "169.254.";
    PublicByFirstCharacter("8.8.8.8");
  }

  /* ---------------- the same test, on the four bytes of an address ---------------- */

  /** The address blocks the test is meant to recognise, stated on the bytes
      a.b.c.d of an IPv4 address. */
  predicate IsLocalV4(q: seq<byte>)
    requires |q| == 4
  {
    || q == [0, 0, 0, 0]
    || q[0] == 127
    || q[0] == 10
    || (q[0] == 192 && q[1] == 168)
    || (q[0] == 172 && 16 <= q[1] <= 31)
    || (q[0] == 169 && q[1] == 254)
    || (224 <= q[0] <= 239)
  }

  /** A dot-free head followed by a dot starts with `p + "." + t` exactly when
      the head is `p` and the remainder starts with `t`. */
  lemma PrefixAtDot(x: string, r: string, p: string, t: string)
    requires '.' !in x && '.' !in p
    ensures HasPrefix(x + "." + r, p + "." + t) <==> x == p && HasPrefix(r, t)
  {
    var s, u := x + "." + r, p + "." + t;
    if HasPrefix(s, u) {
      var m := if |x| <= |p| then |x| else |p|;
      assert s[m] == s[..|u|][m] == u[m];
      assert forall i :: 0 <= i < |x| ==> s[i] == x[i] && x[i] in x;
      assert forall i :: 0 <= i < |p| ==> u[i] == p[i] && p[i] in p;
      assert |x| == |p|;
      assert x == s[..|x|] == u[..|p|] == p;
      assert r[..|t|] == s[|x| + 1..|u|] == u[|p| + 1..] == t;
    }
  }

  lemma DottedQuadParts(q: seq<byte>)
    requires |q| == 4
    ensures DottedQuad(q) == FormatNat(q[0] as nat) + "." + (FormatNat(q[1] as nat) + "." + (FormatNat(q[2] as nat) + "." + FormatNat(q[3] as nat)))
  {
    var o := Octets(q);
    JoinFour(o[0], o[1], o[2], o[3]);
    assert o == [o[0], o[1], o[2], o[3]];
  }

  /** The first octet's text followed by a dot is a prefix exactly when the
      first byte has that value. */
  lemma FirstOctetPrefix(q: seq<byte>, v: nat)
    requires |q| == 4
    ensures HasPrefix(DottedQuad(q), FormatNat(v) + ".") <==> q[0] as nat == v
  {
    DottedQuadParts(q);
    NoDotInDecimal(q[0] as nat);
    NoDotInDecimal(v);
    var rest := FormatNat(q[1] as nat) + "." + (FormatNat(q[2] as nat) + "." + FormatNat(q[3] as nat));
    PrefixAtDot(FormatNat(q[0] as nat), rest, FormatNat(v), "");
    assert FormatNat(v) + "." + "" == FormatNat(v) + ".";
    FormatNatInjective(q[0] as nat, v);
  }

  /** Likewise for the first two octets. */
  lemma TwoOctetPrefix(q: seq<byte>, v: nat, w: nat)
    requires |q| == 4
    ensures HasPrefix(DottedQuad(q), FormatNat(v) + "." + FormatNat(w) + ".") <==> q[0] as nat == v && q[1] as nat == w
  {
    DottedQuadParts(q);
    NoDotInDecimal(q[0] as nat);
    NoDotInDecimal(q[1] as nat);
    NoDotInDecimal(v);
    NoDotInDecimal(w);
    var tail := FormatNat(q[2] as nat) + "." + FormatNat(q[3] as nat);
    var rest := FormatNat(q[1] as nat) + "." + tail;
    PrefixAtDot(FormatNat(q[0] as nat), rest, FormatNat(v), FormatNat(w) + ".");
    assert FormatNat(v) + "." + FormatNat(w) + "." == FormatNat(v) + "." + (FormatNat(w) + ".");
    PrefixAtDot(FormatNat(q[1] as nat), tail, FormatNat(w), "");
    assert FormatNat(w) + "." + "" == FormatNat(w) + ".";
    FormatNatInjective(q[0] as nat, v);
    FormatNatInjective(q[1] as nat, w);
  }

  lemma Multicast224To227(q: seq<byte>)
    requires |q| == 4
    ensures HasPrefix(DottedQuad(q), "224.") || HasPrefix(DottedQuad(q), "225.") || HasPrefix(DottedQuad(q), "226.") || HasPrefix(DottedQuad(q), "227.") <==> 224 <= q[0] <= 227
  {
    assert FormatNat(224) + "." == "224.";
    FirstOctetPrefix(q, 224);
    assert FormatNat(225) + "." == "225.";
    FirstOctetPrefix(q, 225);
    assert FormatNat(226) + "." == "226.";
    FirstOctetPrefix(q, 226);
    assert FormatNat(227) + "." == "227.";
    FirstOctetPrefix(q, 227);
  }

  lemma Multicast228To231(q: seq<byte>)
    requires |q| == 4
    ensures HasPrefix(DottedQuad(q), "228.") || HasPrefix(DottedQuad(q), "229.") || HasPrefix(DottedQuad(q), "230.") || HasPrefix(DottedQuad(q), "231.") <==> 228 <= q[0] <= 231
  {
    assert FormatNat(228) + "." == "228.";
    FirstOctetPrefix(q, 228);
    assert FormatNat(229) + "." == "229.";
    FirstOctetPrefix(q, 229);
    assert FormatNat(230) + "." == "230.";
    FirstOctetPrefix(q, 230);
    assert FormatNat(231) + "." == "231.";
    FirstOctetPrefix(q, 231);
  }

  lemma Multicast232To235(q: seq<byte>)
    requires |q| == 4
    ensures HasPrefix(DottedQuad(q), "232.") || HasPrefix(DottedQuad(q), "233.") || HasPrefix(DottedQuad(q), "234.") || HasPrefix(DottedQuad(q), "235.") <==> 232 <= q[0] <= 235
  {
    assert FormatNat(232) + "." == "232.";
    FirstOctetPrefix(q, 232);
    assert FormatNat(233) + "." == "233.";
    FirstOctetPrefix(q, 233);
    assert FormatNat(234) + "." == "234.";
    FirstOctetPrefix(q, 234);
    assert FormatNat(235) + "." == "235.";
    FirstOctetPrefix(q, 235);
  }

  lemma Multicast236To239(q: seq<byte>)
    requires |q| == 4
    ensures HasPrefix(DottedQuad(q), "236.") || HasPrefix(DottedQuad(q), "237.") || HasPrefix(DottedQuad(q), "238.") || HasPrefix(DottedQuad(q), "239.") <==> 236 <= q[0] <= 239
  {
    assert FormatNat(236) + "." == "236.";
    FirstOctetPrefix(q, 236);
    assert FormatNat(237) + "." == "237.";
    FirstOctetPrefix(q, 237);
    assert FormatNat(238) + "." == "238.";
    FirstOctetPrefix(q, 238);
    assert FormatNat(239) + "." == "239.";
    FirstOctetPrefix(q, 239);
  }

  /** The sixteen multicast prefixes select exactly the first bytes 224..239. */
  lemma MulticastOfDottedQuad(q: seq<byte>)
    requires |q| == 4
    ensures HasMulticastPrefix(DottedQuad(q)) <==> 224 <= q[0] <= 239
  {
    Multicast224To227(q);
    Multicast228To231(q);
    Multicast232To235(q);
    Multicast236To239(q);
  }

  lemma Block172OfDottedQuad(q: seq<byte>)
    requires |q| == 4
    ensures (HasPrefix(DottedQuad(q), "172.") && InPrivate172Block(DottedQuad(q))) <==> (q[0] == 172 && 16 <= q[1] <= 31)
  {
    assert FormatNat(172) == "172";
    FirstOctetPrefix(q, 172);
    DottedQuadSplit(q);
    if 16 <= q[1] <= 31 {
      assert Split(DottedQuad(q), '.')[1] == FormatNat(q[1] as nat);
    }
    forall i: nat | 16 <= i <= 31 && Split(DottedQuad(q), '.')[1] == FormatNat(i) ensures q[1] as nat == i {
      FormatNatInjective(q[1] as nat, i);
    }
  }

  /** Dotted-quad text starts with a digit, so it is never "::1". */
  lemma DottedQuadNotV6Loopback(q: seq<byte>)
    requires |q| == 4
    ensures DottedQuad(q) != "::1"
  {
    DottedQuadParts(q);
    assert DottedQuad(q)[0] == FormatNat(q[0] as nat)[0];
  }

  /** The text "127.0.0.1" already starts with "127.". */
  lemma LoopbackTextHasPrefix(q: seq<byte>)
    requires |q| == 4
    ensures DottedQuad(q) == "127.0.0.1" ==> q[0] == 127
  {
    assert "127.0.0.1"[..4] == "127.";
    assert FormatNat(127) + "." == "127.";
    FirstOctetPrefix(q, 127);
  }

  lemma UnspecifiedText(q: seq<byte>)
    requires |q| == 4
    ensures DottedQuad(q) == "0.0.0.0" <==> q == [0, 0, 0, 0]
  {
    var z: seq<byte> := [0, 0, 0, 0];
    DottedQuadParts(z);
    assert FormatNat(0) == "0";
    assert DottedQuad(z) == "0.0.0.0";
    DottedQuadInjective(q, z);
  }

  lemma LoopbackPrefixOfDottedQuad(q: seq<byte>)
    requires |q| == 4
    ensures HasPrefix(DottedQuad(q), "127.") <==> q[0] == 127
  {
    assert FormatNat(127) + "." == "127.";
    FirstOctetPrefix(q, 127);
  }

  lemma TenPrefixOfDottedQuad(q: seq<byte>)
    requires |q| == 4
    ensures HasPrefix(DottedQuad(q), "10.") <==> q[0] == 10
  {
    assert FormatNat(10) + "." == "10.";
    FirstOctetPrefix(q, 10);
  }

  lemma PrivateTwoOctetOfDottedQuad(q: seq<byte>)
    requires |q| == 4
    ensures HasPrefix(DottedQuad(q), "192.168.") <==> q[0] == 192 && q[1] == 168
  {
    assert FormatNat(192) + "." + FormatNat(168) + "." == "192.168.";
    TwoOctetPrefix(q, 192, 168);
  }

  lemma LinkLocalOfDottedQuad(q: seq<byte>)
    requires |q| == 4
    ensures HasPrefix(DottedQuad(q), "169.254.") <==> q[0] == 169 && q[1] == 254
  {
    assert FormatNat(169) + "." + FormatNat(254) + "." == "169.254.";
    TwoOctetPrefix(q, 169, 254);
  }

  /** On the dotted-quad text of any four bytes, the text-prefix test agrees
      with the address blocks it stands for. */
  lemma LocalityOfDottedQuad(q: seq<byte>)
    requires |q| == 4
    ensures IsLocalAddress(DottedQuad(q)) <==> IsLocalV4(q)
  {
    DottedQuadNotV6Loopback(q);
    LoopbackTextHasPrefix(q);
    UnspecifiedText(q);
    LoopbackPrefixOfDottedQuad(q);
    TenPrefixOfDottedQuad(q);
    PrivateTwoOctetOfDottedQuad(q);
    LinkLocalOfDottedQuad(q);
    Block172OfDottedQuad(q);
    MulticastOfDottedQuad(q);
  }

  /* ---------------- filterConnections ---------------- */

  datatype FilterMode = FilterAll | FilterLocal | FilterPublic

  /** The test `filterConnections` applies: the remote address only. */
  predicate IsLocalConnection(c: Connection) {
    IsLocalAddress(c.remoteIp)
  }

  predicate IsPublicConnection(c: Connection) {
    !IsLocalAddress(c.remoteIp)
  }

  /** The elements of `xs` that satisfy `keep`, in their original order. */
  function Keep(xs: seq<Connection>, keep: Connection -> bool): (kept: seq<Connection>)
    ensures |kept| <= |xs|
    ensures forall k :: 0 <= k < |kept| ==> keep(kept[k])
  {
    if xs == [] then []
    else
      var last := xs[|xs| - 1];
      Keep(xs[..|xs| - 1], keep) + if keep(last) then [last] else []
  }

  /** What `filterConnections` returns in each mode. */
  function Filtered(mode: FilterMode, conns: seq<Connection>): seq<Connection> {
    match mode
    case FilterAll => conns
    case FilterLocal => Keep(conns, IsLocalConnection)
    case FilterPublic => Keep(conns, IsPublicConnection)
  }

  /** `filterConnections`: the input itself in mode all; otherwise a fresh
      list built by appending each connection whose remote address passes. */
  method FilterConnections(mode: FilterMode, conns: seq<Connection>) returns (filtered: seq<Connection>)
    ensures filtered == Filtered(mode, conns)
  {
    if mode == FilterAll {
      return conns;
    }
    filtered := [];
    for i := 0 to |conns|
      invariant filtered == Filtered(mode, conns[..i])
    {
      assert conns[..i + 1][..i] == conns[..i];
      var c := conns[i];
      var isLocal := IsLocalAddress(c.remoteIp);
      if mode == FilterLocal && isLocal {
        filtered := filtered + [c];
      } else if mode == FilterPublic && !isLocal {
        filtered := filtered + [c];
      }
    }
    assert conns[..|conns|] == conns;
  }

  /** `xs` is `ys` with some elements left out, the rest in order. */
  ghost predicate IsSubsequence<T>(xs: seq<T>, ys: seq<T>)
    decreases |ys|
  {
    || xs == []
    || (ys != [] && (|| (xs[|xs| - 1] == ys[|ys| - 1] && IsSubsequence(xs[..|xs| - 1], ys[..|ys| - 1]))
                     || IsSubsequence(xs, ys[..|ys| - 1])))
  }

  lemma {:induction false} KeepIsSubsequence(xs: seq<Connection>, keep: Connection -> bool)
    ensures IsSubsequence(Keep(xs, keep), xs)
  {
    if xs != [] {
      var init, last := xs[..|xs| - 1], xs[|xs| - 1];
      KeepIsSubsequence(init, keep);
      var kept := Keep(xs, keep);
      assert xs[..|xs| - 1] == init;
      if keep(last) {
        assert kept == Keep(init, keep) + [last];
        assert kept[..|kept| - 1] == Keep(init, keep) && kept[|kept| - 1] == last;
      } else {
        assert kept == Keep(init, keep);
      }
    }
  }

  /** An element is kept exactly when it is in the input and passes. */
  lemma {:induction false} KeepMembership(xs: seq<Connection>, keep: Connection -> bool, c: Connection)
    ensures c in Keep(xs, keep) <==> c in xs && keep(c)
  {
    if xs != [] {
      var init := xs[..|xs| - 1];
      KeepMembership(init, keep, c);
      assert xs == init + [xs[|xs| - 1]];
    }
  }

  /** A test and its negation split the input: together the two selections
      hold every element exactly as often as the input does. */
  lemma {:induction false} KeepPartition(xs: seq<Connection>, keep: Connection -> bool, drop: Connection -> bool)
    requires forall c :: drop(c) == !keep(c)
    ensures multiset(Keep(xs, keep)) + multiset(Keep(xs, drop)) == multiset(xs)
  {
    if xs != [] {
      var init, last := xs[..|xs| - 1], xs[|xs| - 1];
      KeepPartition(init, keep, drop);
      assert xs == init + [last];
      assert multiset(xs) == multiset(init) + multiset{last};
      if keep(last) {
        assert Keep(xs, keep) == Keep(init, keep) + [last];
        assert Keep(xs, drop) == Keep(init, drop);
      } else {
        assert Keep(xs, keep) == Keep(init, keep);
        assert Keep(xs, drop) == Keep(init, drop) + [last];
      }
    }
  }

  /** In mode local the result is the local subsequence, in mode public the
      rest, and in mode all the input unchanged; the local and the public
      results together are a rearrangement of the input. */
  lemma FilteredModes(conns: seq<Connection>)
    ensures Filtered(FilterAll, conns) == conns
    ensures IsSubsequence(Filtered(FilterLocal, conns), conns)
    ensures IsSubsequence(Filtered(FilterPublic, conns), conns)
    ensures |Filtered(FilterLocal, conns)| + |Filtered(FilterPublic, conns)| == |conns|
    ensures multiset(Filtered(FilterLocal, conns)) + multiset(Filtered(FilterPublic, conns)) == multiset(conns)
    ensures forall c :: c in Filtered(FilterLocal, conns) <==> c in conns && IsLocalAddress(c.remoteIp)
    ensures forall c :: c in Filtered(FilterPublic, conns) <==> c in conns && !IsLocalAddress(c.remoteIp)
  {
    KeepIsSubsequence(conns, IsLocalConnection);
    KeepIsSubsequence(conns, IsPublicConnection);
    KeepPartition(conns, IsLocalConnection, IsPublicConnection);
    assert |multiset(Filtered(FilterLocal, conns))| + |multiset(Filtered(FilterPublic, conns))| == |multiset(conns)|;
    forall c ensures c in Keep(conns, IsLocalConnection) <==> c in conns && IsLocalAddress(c.remoteIp) {
      KeepMembership(conns, IsLocalConnection, c);
    }
    forall c ensures c in Keep(conns, IsPublicConnection) <==> c in conns && !IsLocalAddress(c.remoteIp) {
      KeepMembership(conns, IsPublicConnection, c);
    }
  }
}
