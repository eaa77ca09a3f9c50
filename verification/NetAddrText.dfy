/** Both address families: `net_addr_str` and `net_addr_from_str` of src/base/system.cpp. */
module NetAddrText {
  import opened Bytes
  import opened NetAddr
  import opened NetAddrV6

  // ---------------------------------------------------------------------------------------------
  // Octets and groups
  // ---------------------------------------------------------------------------------------------

  function Word(hi: int, lo: int): int { hi * 256 + lo }

  function GroupsOf(ip: octets): groups {
    seq(8, i requires 0 <= i < 8 => Word(ip[2 * i], ip[2 * i + 1]))
  }

  function OctetsOf(g: groups): octets {
    seq(16, i requires 0 <= i < 16 => if i % 2 == 0 then g[i / 2] / 256 else g[i / 2] % 256)
  }

  lemma OctetsOfGroups(ip: octets)
    ensures OctetsOf(GroupsOf(ip)) == ip
  {
  }

  // ---------------------------------------------------------------------------------------------
  // Printing
  // ---------------------------------------------------------------------------------------------

  function Unknown(kind: int): text {
    [117, 110, 107, 110, 111, 119, 110, 32, 116, 121, 112, 101, 32]
    + if kind < 0 then [45] + Decimal(-kind) else Decimal(kind)
  }

  function AddrText(addr: Addr, addPort: bool): text {
    if addr.kind == NETTYPE_IPV4 || addr.kind == NETTYPE_WEBSOCKET_IPV4 then
      V4Text(addr.ip, if addPort then PortText(addr.port) else [])
    else if addr.kind == NETTYPE_IPV6 then V6Text(GroupsOf(addr.ip), if addPort then addr.port else -1)
    else Unknown(addr.kind)
  }

  /** `net_addr_str`; the text is cut to a buffer of `maxLength` bytes. */
  method NetAddrStr(addr: Addr, maxLength: nat, addPort: bool) returns (out: text)
    requires maxLength > 0
    ensures out == Cut(AddrText(addr, addPort), maxLength)
    ensures maxLength >= NETADDR_MAXSTRSIZE && addr.kind in {NETTYPE_IPV4, NETTYPE_WEBSOCKET_IPV4, NETTYPE_IPV6} ==>
              out == AddrText(addr, addPort)
  {
    if maxLength >= NETADDR_MAXSTRSIZE && addr.kind in {NETTYPE_IPV4, NETTYPE_WEBSOCKET_IPV4, NETTYPE_IPV6} {
      AddrTextFits(addr, addPort);
    }
    hide V4Text, V6Text, PortText, Unknown;
    if addr.kind == NETTYPE_IPV4 || addr.kind == NETTYPE_WEBSOCKET_IPV4 {
      if addPort {
        out := Cut(V4Text(addr.ip, PortText(addr.port)), maxLength);
      } else {
        out := Cut(V4Text(addr.ip, []), maxLength);
      }
    } else if addr.kind == NETTYPE_IPV6 {
      var port: int := -1;
      if addPort {
        port := addr.port;
      }
      var ip: groups := seq(8, _ => 0);
      var i := 0;
      while i < 8
        invariant 0 <= i <= 8 && |ip| == 8
        invariant forall k :: 0 <= k < i ==> ip[k] == Word(addr.ip[2 * k], addr.ip[2 * k + 1])
      {
        ip := ip[i := Word(addr.ip[i * 2], addr.ip[i * 2 + 1])];
        i := i + 1;
      }
      assert ip == GroupsOf(addr.ip);
      out := NetAddrStrV6(ip, port, maxLength);
    } else {
      out := Cut(Unknown(addr.kind), maxLength);
    }
  }

  // ---------------------------------------------------------------------------------------------
  // Reading
  // ---------------------------------------------------------------------------------------------

  /** The system's `inet_pton` for IPv6. */
  type Pton = text -> Option<octets>

  /** How many of at most `limit` bytes come before a closing bracket. */
  function BeforeBracket(str: text, limit: nat): (n: nat)
    ensures n <= |str| && n <= limit
  {
    if limit == 0 || str == [] || str[0] == CLOSING then 0 else 1 + BeforeBracket(str[1..], limit - 1)
  }

  /** The part behind the opening bracket. */
  function FromV6(str: text, pton: Pton): Option<Addr> {
    var n := BeforeBracket(str, 127);
    var ip := pton(str[..n]);
    if ip == None || At(str, n) != CLOSING || ReadPort(str[n + 1..]) == None then None
    else
      ReadValues(str);
      Some(Addr(NETTYPE_IPV6, ip.value, ReadPort(str[n + 1..]).value.value))
  }

  function FromText(str: text, pton: Pton): Option<Addr> {
    if At(str, 0) == OPENING then FromV6(str[1..], pton) else FromV4(str)
  }

  method CopyToBracket(str: text) returns (buf: text, i: nat)
    ensures i == BeforeBracket(str, 127) && buf == str[..i]
  {
    buf, i := [], 0;
    while i < 127 && At(str, i) != 0 && At(str, i) != CLOSING
      invariant i <= 127 && i <= |str| && buf == str[..i]
      invariant i + BeforeBracket(str[i..], 127 - i) == BeforeBracket(str, 127)
    {
      buf := buf + [str[i]];
      assert str[i..][1..] == str[i + 1..];
      i := i + 1;
    }
  }

  /** `net_addr_from_str` */
  method NetAddrFromStr(str0: text, pton: Pton) returns (addr: Option<Addr>)
    ensures addr == FromText(str0, pton)
  {
    hide FromV4, ReadUpTo;
    if At(str0, 0) == OPENING {
      var str := str0[1..];
      var buf, i := CopyToBracket(str);
      var ip := pton(buf);
      if ip == None {
        return None;
      }
      str := str[i..];
      if At(str, 0) != CLOSING {
        return None;
      }
      str := str[1..];
      var port := 0;
      if At(str, 0) == COLON {
        var ok;
        ok, port, str := ParseUint(65535, str[1..]);
        if !ok {
          return None;
        }
      }
      return Some(Addr(NETTYPE_IPV6, ip.value, port));
    } else {
      addr := ParseV4(str0);
    }
  }

  // ---------------------------------------------------------------------------------------------
  // There and back
  // ---------------------------------------------------------------------------------------------

  lemma {:induction false} BracketAfter(body: text, rest: text, limit: nat)
    requires CLOSING !in body && rest != [] && rest[0] == CLOSING && |body| <= limit
    ensures BeforeBracket(body + rest, limit) == |body|
    decreases |body|
  {
    if body == [] {
      assert body + rest == rest;
    } else {
      BracketAfter(body[1..], rest, limit - 1);
      assert (body + rest)[1..] == body[1..] + rest;
    }
  }

  /** What a printed address is read back as: only the four octets in use of an IPv4 address count, and the port is
      0 when it was not printed. */
  function ReadBack(addr: Addr, addPort: bool): Addr {
    var port: port16 := if addPort then addr.port else 0;
    if addr.kind == NETTYPE_IPV6 then Addr(NETTYPE_IPV6, addr.ip, port)
    else Addr(NETTYPE_IPV4, addr.ip[..4] + seq(12, _ => 0), port)
  }

  lemma V6Reads(body: text, tail: text, ip: octets, port: port16, pton: Pton)
    requires CLOSING !in body && |body| <= 127 && pton(body) == Some(ip) && ReadPort(tail).Some?
    requires ReadPort(tail).value.value == port
    ensures FromV6(body + ([CLOSING] + tail), pton) == Some(Addr(NETTYPE_IPV6, ip, port))
  {
    hide ReadPort, BeforeBracket;
    var str := body + ([CLOSING] + tail);
    BracketAfter(body, [CLOSING] + tail, 127);
    assert str[..|body|] == body && str[|body| + 1..] == tail && str[|body|] == CLOSING;
  }

  /** An address that `inet_pton` reads, a closing bracket, and anything that does not spoil a port. */
  predicate Bracketed(str: text, body: text, tail: text, pton: Pton) {
    && CLOSING !in body && |body| <= 127 && str == body + ([CLOSING] + tail)
    && pton(body).Some? && ReadPort(tail).Some?
  }

  lemma {:induction false} BracketFound(str: text, limit: nat)
    ensures CLOSING !in str[..BeforeBracket(str, limit)]
    decreases |str|
  {
    var n := BeforeBracket(str, limit);
    if n > 0 {
      BracketFound(str[1..], limit - 1);
      assert str[..n] == [str[0]] + str[1..][..n - 1];
    }
  }

  lemma OnlyBracketedIsRead(str: text, pton: Pton) returns (body: text, tail: text)
    requires FromV6(str, pton).Some?
    ensures Bracketed(str, body, tail, pton)
    ensures FromV6(str, pton).value == Addr(NETTYPE_IPV6, pton(body).value, ReadPort(tail).value.value)
  {
    hide ReadPort, BeforeBracket;
    BracketFound(str, 127);
    var n := BeforeBracket(str, 127);
    body, tail := str[..n], str[n + 1..];
    assert str == body + ([CLOSING] + tail);
  }

  /** What follows the opening bracket is read exactly if it has that form; whatever comes behind the closing bracket
      or behind the digits of the port is not looked at. */
  lemma V6ReadIffBracketed(str: text, pton: Pton)
    ensures FromV6(str, pton).Some? <==> exists body, tail :: Bracketed(str, body, tail, pton)
  {
    hide FromV6, Bracketed;
    if FromV6(str, pton).Some? {
      var body, tail := OnlyBracketedIsRead(str, pton);
    }
    forall body, tail | Bracketed(str, body, tail, pton)
      ensures FromV6(str, pton).Some?
    {
      BracketedIsRead(str, body, tail, pton);
    }
  }

  lemma BracketedIsRead(str: text, body: text, tail: text, pton: Pton)
    requires Bracketed(str, body, tail, pton)
    ensures FromV6(str, pton).Some?
  {
    hide FromV6, ReadPort;
    PortInRange(tail);
    V6Reads(body, tail, pton(body).value, ReadPort(tail).value.value, pton);
  }

  lemma PortInRange(tail: text)
    requires ReadPort(tail).Some?
    ensures 0 <= ReadPort(tail).value.value < 65536
  {
    ReadValues(tail);
    hide ReadPort;
  }

  /** So any junk may follow, unlike behind an IPv4 address. */
  lemma JunkIgnored(ip: octets, body: text, port: port16, junk: text, pton: Pton)
    requires CLOSING !in body && |body| <= 127 && pton(body) == Some(ip)
    ensures At(junk, 0) != COLON ==> FromV6(body + ([CLOSING] + junk), pton) == Some(Addr(NETTYPE_IPV6, ip, 0))
    ensures !IsDigit(At(junk, 0)) ==>
              FromV6(body + ([CLOSING] + (PortText(port) + junk)), pton) == Some(Addr(NETTYPE_IPV6, ip, port))
  {
    hide FromV6, Decimal, ReadUpTo;
    if At(junk, 0) != COLON {
      V6Reads(body, junk, ip, 0, pton);
    }
    if !IsDigit(At(junk, 0)) {
      DecimalField(port, 65535);
      ReadField(Decimal(port), junk, 65535);
      assert (PortText(port) + junk)[1..] == Decimal(port) + junk;
      V6Reads(body, PortText(port) + junk, ip, port, pton);
    }
  }

  lemma V6RoundTrip(ip: octets, port: int, shown: port16, pton: Pton)
    requires -1 <= port < 65536 && shown == (if port >= 0 then port else 0)
    requires pton(Body(GroupsOf(ip))) == Some(ip)
    ensures FromText(V6Text(GroupsOf(ip), port), pton) == Some(Addr(NETTYPE_IPV6, ip, shown))
  {
    hide Body, ReadPort, GroupsOf, FromV6, FromV4, Decimal;
    var body := Body(GroupsOf(ip));
    BodyShape(GroupsOf(ip));
    PortRead(shown);
    V6Reads(body, PortSuffix(port), ip, shown, pton);
    assert V6Text(GroupsOf(ip), port)[1..] == body + ([CLOSING] + PortSuffix(port));
  }

  /** A printed address of either family is read back, given an `inet_pton` that reads what the printer writes. */
  lemma RoundTrip(addr: Addr, addPort: bool, pton: Pton)
    requires addr.kind in {NETTYPE_IPV4, NETTYPE_WEBSOCKET_IPV4, NETTYPE_IPV6}
    requires addr.kind == NETTYPE_IPV6 ==> pton(Body(GroupsOf(addr.ip))) == Some(addr.ip)
    ensures FromText(AddrText(addr, addPort), pton) == Some(ReadBack(addr, addPort))
  {
    hide Body, V4Text, V6Text, FromV4, FromV6, GroupsOf, PortText;
    if addr.kind == NETTYPE_IPV6 {
      V6RoundTrip(addr.ip, if addPort then addr.port else -1, if addPort then addr.port else 0, pton);
    } else {
      V4RoundTrip(addr.ip, addr.port);
      V4Start(addr.ip, if addPort then PortText(addr.port) else []);
    }
  }

  lemma V4Start(ip: octets, tail: text)
    ensures At(V4Text(ip, tail), 0) != OPENING
  {
  }

  /** Such an `inet_pton` exists: the reader of the printed groups. */
  function ReferencePton(body: text): Option<octets> {
    var g := ReadGroups(body);
    if |g| == 8 && forall i :: 0 <= i < 8 ==> 0 <= g[i] < 65536 then Some(OctetsOf(g)) else None
  }

  lemma ReferenceReads(ip: octets)
    ensures ReferencePton(Body(GroupsOf(ip))) == Some(ip)
  {
    hide Body, ReadGroups, GroupsOf, OctetsOf;
    ReadGroupsOfBody(GroupsOf(ip));
    OctetsOfGroups(ip);
  }

  /** The text of an IPv6 address determines its eight groups and its port. */
  lemma V6TextInjective(a: octets, p: int, b: octets, q: int)
    requires -1 <= p < 65536 && -1 <= q < 65536 && V6Text(GroupsOf(a), p) == V6Text(GroupsOf(b), q)
    ensures a == b && p == q
  {
    var pton: Pton := ReferencePton;
    ReferenceReads(a);
    ReferenceReads(b);
    hide FromText, Body, GroupsOf, ReferencePton;
    V6RoundTrip(a, p, if p >= 0 then p else 0, pton);
    V6RoundTrip(b, q, if q >= 0 then q else 0, pton);
    assert |V6Text(GroupsOf(a), p)| - |PortSuffix(p)| == |V6Text(GroupsOf(b), q)| - |PortSuffix(q)|;
  }

  lemma ExampleV4(ip: octets, tail: text)
    requires ip[..4] == [127, 0, 0, 1]
    ensures V4Text(ip, tail) == [49, 50, 55, 46, 48, 46, 48, 46, 49] + tail
  {
    assert ip[0] == 127 && ip[1] == 0 && ip[2] == 0 && ip[3] == 1;
    SomeDecimals();
    hide Decimal;
  }

  lemma ExamplePort()
    ensures PortText(5678) == [58, 53, 54, 55, 56]
  {
    SomeDecimals();
    hide Decimal;
  }

  /** Addresses as src/test/netaddr.cpp and section 4 of RFC 5952 print them. */
  lemma PrintedV4(ip: octets)
    requires ip[..4] == [127, 0, 0, 1]
    ensures V4Text(ip, []) == Ascii("127.0.0.1") && V4Text(ip, PortText(5678)) == Ascii("127.0.0.1:5678")
  {
    hide V4Text, PortText, Ascii;
    AsciiV4();
    ExampleV4(ip, []);
    ExamplePort();
    ExampleV4(ip, PortText(5678));
  }

  lemma AsciiUnknown()
    ensures Ascii("unknown type 0") == [117, 110, 107, 110, 111, 119, 110, 32, 116, 121, 112, 101, 32, 48]
  {
  }

  lemma PrintedUnknown(addr: Addr, addPort: bool)
    requires addr.kind == 0
    ensures AddrText(addr, addPort) == Ascii("unknown type 0")
  {
    hide V4Text, V6Text, PortText, Ascii;
    AsciiUnknown();
    assert Decimal(0) == [48];
  }

  lemma ExampleBody(ip: groups)
    requires ip == [0x2001, 0, 0, 1, 0, 0, 0, 0xabcd]
    ensures Body(ip) == [50, 48, 48, 49, 58, 48, 58, 48, 58, 49, 58, 58, 97, 98, 99, 100]
  {
    ExampleGap(ip);
    ExampleGroups();
    assert ip[..4] == [0x2001, 0, 0, 1] && ip[7..] == [0xabcd];
    hide Gap, Joined;
  }

  lemma PrintedV6(ip: groups)
    requires ip == [0x2001, 0, 0, 1, 0, 0, 0, 0xabcd]
    ensures V6Text(ip, 80) == Ascii("[2001:0:0:1::abcd]:80")
  {
    hide Body, Ascii, Decimal;
    AsciiV6();
    ExampleBody(ip);
    SomeDecimals();
    assert V6Text(ip, 80) == [91] + Body(ip) + [93, 58, 56, 48];
  }

  lemma AsciiV4()
    ensures Ascii("127.0.0.1") == [49, 50, 55, 46, 48, 46, 48, 46, 49]
    ensures Ascii("127.0.0.1:5678") == [49, 50, 55, 46, 48, 46, 48, 46, 49, 58, 53, 54, 55, 56]
  {
  }

  lemma AsciiV6()
    ensures Ascii("[2001:0:0:1::abcd]:80")
            == [91, 50, 48, 48, 49, 58, 48, 58, 48, 58, 49, 58, 58, 97, 98, 99, 100, 93, 58, 56, 48]
  {
  }

  lemma SomeDecimals()
    ensures Decimal(127) == [49, 50, 55] && Decimal(0) == [48] && Decimal(1) == [49]
    ensures Decimal(5678) == [53, 54, 55, 56] && Decimal(80) == [56, 48]
  {
  }

  lemma ExampleGap(ip: groups)
    requires ip == [0x2001, 0, 0, 1, 0, 0, 0, 0xabcd]
    ensures Gap(ip) == Run(4, 3)
  {
    assert ZerosAt(ip, 7) == 0 && ZerosAt(ip, 6) == 1 && ZerosAt(ip, 5) == 2 && ZerosAt(ip, 4) == 3;
    assert ZerosAt(ip, 3) == 0 && ZerosAt(ip, 2) == 1 && ZerosAt(ip, 1) == 2 && ZerosAt(ip, 0) == 0;
    hide ZerosAt;
    assert GapFrom(ip, 8) == Run(-1, 0);
    assert GapFrom(ip, 6) == Run(-1, 0);
    assert GapFrom(ip, 4) == Run(4, 3);
    assert GapFrom(ip, 2) == Run(4, 3);
  }

  lemma ExampleGroups()
    ensures Joined([0x2001, 0, 0, 1]) == [50, 48, 48, 49, 58, 48, 58, 48, 58, 49]
    ensures Joined([0xabcd]) == [97, 98, 99, 100]
  {
    SomeHexes();
    hide Hex;
    assert [0x2001, 0][..1] == [0x2001] && [0x2001, 0, 0][..2] == [0x2001, 0];
    assert [0x2001, 0, 0, 1][..3] == [0x2001, 0, 0];
    assert Joined([0x2001, 0]) == [50, 48, 48, 49, 58, 48];
    assert Joined([0x2001, 0, 0]) == [50, 48, 48, 49, 58, 48, 58, 48];
  }

  lemma SomeHexes()
    ensures Hex(0x2001) == [50, 48, 48, 49] && Hex(0) == [48] && Hex(1) == [49] && Hex(0xabcd) == [97, 98, 99, 100]
  {
  }

  /** Every printed address fits a buffer of `NETADDR_MAXSTRSIZE` bytes. */
  lemma AddrTextFits(addr: Addr, addPort: bool)
    requires addr.kind in {NETTYPE_IPV4, NETTYPE_WEBSOCKET_IPV4, NETTYPE_IPV6}
    ensures |AddrText(addr, addPort)| < NETADDR_MAXSTRSIZE
  {
    hide Decimal, Body;
    V4Fits(addr.ip, addr.port);
    BodyShape(GroupsOf(addr.ip));
    DecimalLength(addr.port);
  }
}
