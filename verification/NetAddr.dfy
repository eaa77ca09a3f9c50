/** Network addresses as text: `net_addr_str` and `net_addr_from_str` of src/base/system.cpp. A pointer into a C
    string is modelled by the text from there on. */
module NetAddr {
  import opened Bytes

  const NETTYPE_IPV4 := 1
  const NETTYPE_IPV6 := 2
  const NETTYPE_WEBSOCKET_IPV4 := 8
  const NETADDR_MAXSTRSIZE := 48

  const DOT: byte := 46
  const ZERO: byte := 48
  const COLON: byte := 58
  const OPENING: byte := 91
  const CLOSING: byte := 93

  type octets = s: seq<byte> | |s| == 16 witness seq(16, _ => 0)
  type port16 = p: int | 0 <= p < 65536

  datatype Addr = Addr(kind: int, ip: octets, port: port16)

  datatype Option<+T> = None | Some(value: T)

  // ---------------------------------------------------------------------------------------------
  // Decimal numbers
  // ---------------------------------------------------------------------------------------------

  predicate IsDigit(c: byte) { ZERO <= c <= ZERO + 9 }

  /** `%d` of a number that is not negative. */
  function Decimal(n: nat): (d: text)
    ensures |d| > 0 && forall i :: 0 <= i < |d| ==> IsDigit(d[i])
  {
    if n < 10 then [ZERO + n] else Decimal(n / 10) + [ZERO + n % 10]
  }

  function ValueOf(d: seq<byte>): int {
    if d == [] then 0 else 10 * ValueOf(d[..|d| - 1]) + d[|d| - 1] - ZERO
  }

  /** The number of digits that a text starts with. */
  function Digits(str: text): (n: nat)
    ensures n <= |str| && forall i :: 0 <= i < n ==> IsDigit(str[i])
    ensures n < |str| ==> !IsDigit(str[n])
  {
    if str == [] || !IsDigit(str[0]) then 0 else 1 + Digits(str[1..])
  }

  /** A number that was read, and the text behind it. */
  datatype Number = Number(value: int, rest: text)

  /** An `int` of 32 bits that has run over, in two's complement. */
  function Wrap32(n: int): (r: int)
    ensures -0x8000_0000 <= r < 0x8000_0000
    ensures -0x8000_0000 <= n < 0x8000_0000 ==> r == n
  {
    (n + 0x8000_0000) % 0x1_0000_0000 - 0x8000_0000
  }

  /** Wrapping after each digit is wrapping once. */
  lemma WrapDigit(a: int, d: int)
    ensures Wrap32(Wrap32(a) * 10 + d) == Wrap32(a * 10 + d)
  {
    var q := (a + 0x8000_0000) / 0x1_0000_0000;
    assert Wrap32(a) == a - q * 0x1_0000_0000;
  }

  function ReadNumber(str: text): Option<Number> {
    if Digits(str) == 0 then None else Some(Number(Wrap32(ValueOf(str[..Digits(str)])), str[Digits(str)..]))
  }

  /** `parse_uint8` and `parse_uint16`. */
  function ReadUpTo(str: text, limit: nat): Option<Number> {
    if ReadNumber(str) == None || !(0 <= ReadNumber(str).value.value <= limit) then None else ReadNumber(str)
  }

  function ReadChar(c: byte, str: text): Option<text> {
    if str == [] || str[0] != c then None else Some(str[1..])
  }

  lemma NextDigit(str: text, i: nat)
    requires i < |str| && (forall k :: 0 <= k < i ==> IsDigit(str[k])) && !IsDigit(str[i])
    ensures Digits(str) == i
  {
  }

  lemma ValueStep(str: text, i: nat)
    requires i < |str|
    ensures ValueOf(str[..i + 1]) == 10 * ValueOf(str[..i]) + str[i] - ZERO
  {
    assert str[..i + 1][..i] == str[..i];
  }

  /** `parse_int` */
  method ParseInt(str0: text) returns (ok: bool, out: int, str: text)
    ensures ok == ReadNumber(str0).Some?
    ensures ok ==> Number(out, str) == ReadNumber(str0).value
  {
    str := str0;
    out := 0;
    if At(str, 0) < ZERO || At(str, 0) > ZERO + 9 {
      return false, out, str;
    }
    var i := At(str, 0) - ZERO;
    ghost var n := 1;
    ValueStep(str0, 0);
    assert str0[..0] == [];
    str := str[1..];
    while true
      invariant 1 <= n <= |str0| && str == str0[n..] && i == Wrap32(ValueOf(str0[..n]))
      invariant forall k :: 0 <= k < n ==> IsDigit(str0[k])
      decreases |str|
    {
      if At(str, 0) < ZERO || At(str, 0) > ZERO + 9 {
        assert Digits(str0) == n;
        out := i;
        return true, out, str;
      }
      ValueStep(str0, n);
      WrapDigit(ValueOf(str0[..n]), At(str, 0) - ZERO);
      i := Wrap32(i * 10 + (At(str, 0) - ZERO));
      str := str[1..];
      n := n + 1;
    }
  }

  method ParseChar(c: byte, str0: text) returns (ok: bool, str: text)
    requires c != 0
    ensures ok == ReadChar(c, str0).Some?
    ensures ok ==> str == ReadChar(c, str0).value
  {
    str := str0;
    if At(str, 0) != c {
      return false, str;
    }
    return true, str[1..];
  }

  method ParseUint(limit: nat, str0: text) returns (ok: bool, out: int, str: text)
    ensures ok == ReadUpTo(str0, limit).Some?
    ensures ok ==> Number(out, str) == ReadUpTo(str0, limit).value && 0 <= out <= limit
  {
    ok, out, str := ParseInt(str0);
    if !ok {
      return;
    }
    if out < 0 || out > limit {
      ok := false;
    }
  }

  lemma {:induction false} ValueNonNegative(d: seq<byte>)
    requires forall i :: 0 <= i < |d| ==> IsDigit(d[i])
    ensures ValueOf(d) >= 0
  {
    if d != [] {
      ValueNonNegative(d[..|d| - 1]);
    }
  }

  // ---------------------------------------------------------------------------------------------
  // Reading back what was printed
  // ---------------------------------------------------------------------------------------------

  lemma {:induction false} ValueOfDecimal(n: nat)
    ensures ValueOf(Decimal(n)) == n
  {
    if n >= 10 {
      ValueOfDecimal(n / 10);
      var d := Decimal(n);
      assert d[..|d| - 1] == Decimal(n / 10);
    } else {
      assert ValueOf([]) == 0;
    }
  }

  lemma {:induction false} DigitsOf(d: text, rest: text)
    requires forall i :: 0 <= i < |d| ==> IsDigit(d[i])
    requires rest == [] || !IsDigit(rest[0])
    ensures Digits(d + rest) == |d|
  {
    if d == [] {
      assert d + rest == rest;
    } else {
      DigitsOf(d[1..], rest);
      assert (d + rest)[1..] == d[1..] + rest;
    }
  }

  /** A digit string whose value, as far as 32 bits show it, is in range; leading zeros are allowed. */
  ghost predicate Field(d: text, limit: nat) {
    |d| > 0 && (forall i :: 0 <= i < |d| ==> IsDigit(d[i])) && 0 <= Wrap32(ValueOf(d)) <= limit
  }

  /** Below 2^31 that is the value itself. */
  lemma PlainField(d: text, limit: nat)
    requires Field(d, limit) && ValueOf(d) < 0x8000_0000
    ensures Wrap32(ValueOf(d)) == ValueOf(d) <= limit
  {
    ValueNonNegative(d);
  }

  lemma ReadField(d: text, rest: text, limit: nat)
    requires Field(d, limit) && (rest == [] || !IsDigit(rest[0]))
    ensures ReadUpTo(d + rest, limit) == Some(Number(Wrap32(ValueOf(d)), rest))
  {
    DigitsOf(d, rest);
    assert (d + rest)[..|d|] == d && (d + rest)[|d|..] == rest;
  }

  lemma FieldRead(str: text, limit: nat) returns (d: text)
    requires ReadUpTo(str, limit).Some?
    ensures Field(d, limit)
    ensures var n := ReadUpTo(str, limit).value; Wrap32(ValueOf(d)) == n.value && str == d + n.rest
  {
    d := str[..Digits(str)];
  }

  lemma DecimalField(n: nat, limit: nat)
    requires n <= limit < 0x8000_0000
    ensures Field(Decimal(n), limit) && Wrap32(ValueOf(Decimal(n))) == n
  {
    ValueOfDecimal(n);
    hide Decimal, ValueOf, Wrap32;
    assert Wrap32(n) == n;
  }

  lemma DecimalLength(n: nat)
    ensures n < 10 ==> |Decimal(n)| == 1
    ensures n < 100 ==> |Decimal(n)| <= 2
    ensures n < 1000 ==> |Decimal(n)| <= 3
    ensures n < 10000 ==> |Decimal(n)| <= 4
    ensures n < 100000 ==> |Decimal(n)| <= 5
  {
  }

  // ---------------------------------------------------------------------------------------------
  // IPv4
  // ---------------------------------------------------------------------------------------------

  function PortText(port: port16): text {
    [COLON] + Decimal(port)
  }

  function Dotted(a: text, b: text, c: text, d: text, tail: text): text {
    a + ([DOT] + (b + ([DOT] + (c + ([DOT] + (d + tail))))))
  }

  /** `%d.%d.%d.%d` and what follows it. */
  function V4Text(ip: octets, tail: text): text {
    Dotted(Decimal(ip[0]), Decimal(ip[1]), Decimal(ip[2]), Decimal(ip[3]), tail)
  }

  function ReadDotted(str: text): Option<Number> {
    if ReadChar(DOT, str) == None then None else ReadUpTo(ReadChar(DOT, str).value, 255)
  }

  /** The port behind a colon, or 0. */
  function ReadPort(str: text): Option<Number> {
    if At(str, 0) == COLON then ReadUpTo(str[1..], 65535) else Some(Number(0, str))
  }

  function V4Octets(a: byte, b: byte, c: byte, d: byte): octets {
    [a, b, c, d] + seq(12, _ => 0)
  }

  function FromV4(str: text): Option<Addr> {
    var a := ReadUpTo(str, 255);
    if a == None then None else
    var b := ReadDotted(a.value.rest);
    if b == None then None else
    var c := ReadDotted(b.value.rest);
    if c == None then None else
    var d := ReadDotted(c.value.rest);
    if d == None then None else
    var p := ReadPort(d.value.rest);
    if p == None || p.value.rest != [] then None else
    ReadValues(str);
    Some(Addr(NETTYPE_IPV4, V4Octets(a.value.value, b.value.value, c.value.value, d.value.value), p.value.value))
  }

  lemma ReadUpToRange(str: text, limit: nat)
    ensures ReadUpTo(str, limit).Some? ==> 0 <= ReadUpTo(str, limit).value.value <= limit
  {
  }

  lemma ReadValues(str: text)
    ensures ReadUpTo(str, 255).Some? ==> 0 <= ReadUpTo(str, 255).value.value <= 255
    ensures forall t: text :: ReadDotted(t).Some? ==> 0 <= ReadDotted(t).value.value <= 255
    ensures forall t: text :: ReadPort(t).Some? ==> 0 <= ReadPort(t).value.value <= 65535
  {
    ReadUpToRange(str, 255);
    forall t: text
      ensures ReadDotted(t).Some? ==> 0 <= ReadDotted(t).value.value <= 255
    {
      if ReadChar(DOT, t).Some? {
        ReadUpToRange(t[1..], 255);
      }
    }
    forall t: text
      ensures ReadPort(t).Some? ==> 0 <= ReadPort(t).value.value <= 65535
    {
      if At(t, 0) == COLON {
        ReadUpToRange(t[1..], 65535);
      }
    }
  }

  method ParseDotted(str0: text) returns (ok: bool, out: int, str: text)
    ensures ok == ReadDotted(str0).Some?
    ensures ok ==> Number(out, str) == ReadDotted(str0).value && 0 <= out <= 255
  {
    out := 0;
    ok, str := ParseChar(DOT, str0);
    if ok {
      ok, out, str := ParseUint(255, str);
    }
  }

  /** The IPv4 branch of `net_addr_from_str`. */
  method ParseV4(str0: text) returns (addr: Option<Addr>)
    ensures addr == FromV4(str0)
  {
    hide ReadUpTo, ReadChar, V4Octets;
    addr := None;
    var ok, a, str := ParseUint(255, str0);
    if !ok {
      return;
    }
    var b, c, d;
    ok, b, str := ParseDotted(str);
    if !ok {
      return;
    }
    ok, c, str := ParseDotted(str);
    if !ok {
      return;
    }
    ok, d, str := ParseDotted(str);
    if !ok {
      return;
    }
    var port := 0;
    if At(str, 0) == COLON {
      ok, port, str := ParseUint(65535, str[1..]);
      if !ok {
        return;
      }
    }
    if At(str, 0) != 0 {
      return;
    }
    addr := Some(Addr(NETTYPE_IPV4, V4Octets(a, b, c, d), port));
  }

  lemma ReadDottedField(d: text, rest: text)
    requires Field(d, 255) && (rest == [] || !IsDigit(rest[0]))
    ensures ReadDotted([DOT] + (d + rest)) == Some(Number(Wrap32(ValueOf(d)), rest))
  {
    assert ([DOT] + (d + rest))[1..] == d + rest;
    ReadField(d, rest, 255);
  }

  lemma DottedFieldRead(str: text) returns (d: text)
    requires ReadDotted(str).Some?
    ensures Field(d, 255)
    ensures var n := ReadDotted(str).value; Wrap32(ValueOf(d)) == n.value && str == [DOT] + (d + n.rest)
  {
    d := FieldRead(str[1..], 255);
    assert str == [DOT] + str[1..];
  }

  /** Four fields of at most 255 with dots between, and nothing or a port behind. */
  ghost predicate IsDotted(str: text, a: text, b: text, c: text, d: text, tail: text) {
    && Field(a, 255) && Field(b, 255) && Field(c, 255) && Field(d, 255)
    && str == Dotted(a, b, c, d, tail)
    && ReadPort(tail).Some? && ReadPort(tail).value.rest == []
  }

  /** Such a text is an address, that of its fields' values in 32 bits. */
  lemma DottedIsRead(a: text, b: text, c: text, d: text, tail: text)
    requires IsDotted(Dotted(a, b, c, d, tail), a, b, c, d, tail)
    ensures FromV4(Dotted(a, b, c, d, tail)).Some?
    ensures var addr := FromV4(Dotted(a, b, c, d, tail)).value;
            && addr.kind == NETTYPE_IPV4 && addr.port == ReadPort(tail).value.value
            && addr.ip == [Wrap32(ValueOf(a)), Wrap32(ValueOf(b)), Wrap32(ValueOf(c)), Wrap32(ValueOf(d))]
                          + seq(12, _ => 0)
  {
    TailStart(tail);
    hide Dotted, FromV4, ReadPort, ValueOf, Wrap32, Field;
    FieldsAreRead(a, b, c, d, tail);
  }

  lemma FieldsAreRead(a: text, b: text, c: text, d: text, tail: text)
    requires Field(a, 255) && Field(b, 255) && Field(c, 255) && Field(d, 255)
    requires (tail == [] || tail[0] == COLON) && ReadPort(tail).Some? && ReadPort(tail).value.rest == []
    ensures FromV4(Dotted(a, b, c, d, tail)).Some?
    ensures var addr := FromV4(Dotted(a, b, c, d, tail)).value;
            && addr.kind == NETTYPE_IPV4 && addr.port == ReadPort(tail).value.value
            && addr.ip == [Wrap32(ValueOf(a)), Wrap32(ValueOf(b)), Wrap32(ValueOf(c)), Wrap32(ValueOf(d))]
                          + seq(12, _ => 0)
  {
    hide ReadUpTo, ReadChar, ReadPort, ValueOf, Wrap32, Field;
    var d1 := d + tail;
    var c1 := c + ([DOT] + d1);
    var b1 := b + ([DOT] + c1);
    ReadField(a, [DOT] + b1, 255);
    ReadDottedField(b, [DOT] + c1);
    ReadDottedField(c, [DOT] + d1);
    ReadDottedField(d, tail);
  }

  lemma TailStart(tail: text)
    requires ReadPort(tail).Some? && ReadPort(tail).value.rest == []
    ensures tail == [] || tail[0] == COLON
  {
  }

  /** Nothing else is an address. */
  lemma OnlyDottedIsRead(str: text) returns (a: text, b: text, c: text, d: text, tail: text)
    requires FromV4(str).Some?
    ensures IsDotted(str, a, b, c, d, tail)
  {
    hide ReadUpTo, ReadDotted, ReadPort, ValueOf, Wrap32, Field;
    a := FieldRead(str, 255);
    b := DottedFieldRead(ReadUpTo(str, 255).value.rest);
    var rest := ReadDotted(ReadUpTo(str, 255).value.rest).value.rest;
    c := DottedFieldRead(rest);
    d := DottedFieldRead(ReadDotted(rest).value.rest);
    tail := ReadDotted(ReadDotted(rest).value.rest).value.rest;
  }

  /** A text is read exactly if it is four fields with dots between and nothing or a port behind. */
  lemma ReadIffDotted(str: text)
    ensures FromV4(str).Some? <==> exists a, b, c, d, tail :: IsDotted(str, a, b, c, d, tail)
  {
    hide FromV4, IsDotted;
    if FromV4(str).Some? {
      var a, b, c, d, tail := OnlyDottedIsRead(str);
    }
    forall a, b, c, d, tail | IsDotted(str, a, b, c, d, tail)
      ensures FromV4(str).Some?
    {
      SameText(str, a, b, c, d, tail);
      DottedIsRead(a, b, c, d, tail);
    }
  }

  lemma SameText(str: text, a: text, b: text, c: text, d: text, tail: text)
    requires IsDotted(str, a, b, c, d, tail)
    ensures str == Dotted(a, b, c, d, tail)
  {
  }

  /** Four fields of numbers below 2^31, so far as they are read at all, are at most 255 each. */
  lemma PlainAddress(str: text, a: text, b: text, c: text, d: text, tail: text)
    requires IsDotted(str, a, b, c, d, tail)
    requires ValueOf(a) < 0x8000_0000 && ValueOf(b) < 0x8000_0000
    requires ValueOf(c) < 0x8000_0000 && ValueOf(d) < 0x8000_0000
    ensures FromV4(str).Some?
    ensures FromV4(str).value.ip == [ValueOf(a), ValueOf(b), ValueOf(c), ValueOf(d)] + seq(12, _ => 0)
  {
    SameText(str, a, b, c, d, tail);
    PlainField(a, 255);
    PlainField(b, 255);
    PlainField(c, 255);
    PlainField(d, 255);
    hide Dotted, FromV4, ValueOf, Wrap32, ReadPort;
    DottedIsRead(a, b, c, d, tail);
  }

  /** Longer runs of digits can be read as if they were small: 4294967296.0.0.0 is read as 0.0.0.0. */
  lemma RunsOver(str: text)
    requires str == [52, 50, 57, 52, 57, 54, 55, 50, 57, 54] + [46, 48, 46, 48, 46, 48]
    ensures FromV4(str) == Some(Addr(NETTYPE_IPV4, [0, 0, 0, 0] + seq(12, _ => 0), 0))
  {
    var a: text, z: text := [52, 50, 57, 52, 57, 54, 55, 50, 57, 54], [48];
    TwoToThe32(a);
    assert ValueOf(z) == 0;
    PortRead(0);
    assert str == Dotted(a, z, z, z, []);
    assert IsDotted(str, a, z, z, z, []);
    hide FromV4, Dotted, ReadPort;
    DottedIsRead(a, z, z, z, []);
  }

  lemma TwoToThe32(a: text)
    requires a == [52, 50, 57, 52, 57, 54, 55, 50, 57, 54]
    ensures ValueOf(a) == 0x1_0000_0000 && Wrap32(ValueOf(a)) == 0
  {
    assert ValueOf(a[..0]) == 0;
    ValueStep(a, 0);
    ValueStep(a, 1);
    ValueStep(a, 2);
    ValueStep(a, 3);
    ValueStep(a, 4);
    ValueStep(a, 5);
    ValueStep(a, 6);
    ValueStep(a, 7);
    ValueStep(a, 8);
    ValueStep(a, 9);
    assert a[..10] == a;
  }

  lemma PortRead(port: port16)
    ensures ReadPort([]) == Some(Number(0, []))
    ensures ReadPort(PortText(port)) == Some(Number(port, []))
  {
    hide ReadUpTo, Decimal;
    assert PortText(port)[1..] == Decimal(port) + [];
    DecimalField(port, 65535);
    ReadField(Decimal(port), [], 65535);
  }

  /** A printed address, with or without port, is read back; without port the port is 0. */
  lemma V4RoundTrip(ip: octets, port: port16)
    ensures FromV4(V4Text(ip, [])) == Some(Addr(NETTYPE_IPV4, ip[..4] + seq(12, _ => 0), 0))
    ensures FromV4(V4Text(ip, PortText(port))) == Some(Addr(NETTYPE_IPV4, ip[..4] + seq(12, _ => 0), port))
  {
    PortRead(port);
    V4Reads(ip, [], 0);
    V4Reads(ip, PortText(port), port);
  }

  lemma V4Reads(ip: octets, tail: text, port: port16)
    requires (tail == [] || tail[0] == COLON) && ReadPort(tail) == Some(Number(port, []))
    ensures FromV4(V4Text(ip, tail)) == Some(Addr(NETTYPE_IPV4, ip[..4] + seq(12, _ => 0), port))
  {
    hide FromV4, Dotted, ReadPort, Decimal, ValueOf, Wrap32, Field;
    DecimalField(ip[0], 255);
    DecimalField(ip[1], 255);
    DecimalField(ip[2], 255);
    DecimalField(ip[3], 255);
    DottedIsRead(Decimal(ip[0]), Decimal(ip[1]), Decimal(ip[2]), Decimal(ip[3]), tail);
    assert ip[..4] == [ip[0], ip[1], ip[2], ip[3]];
  }

  /** The printed text fits the buffers that the source declares for it. */
  lemma V4Fits(ip: octets, port: port16)
    ensures |V4Text(ip, PortText(port))| < NETADDR_MAXSTRSIZE
  {
    DecimalLength(ip[0]);
    DecimalLength(ip[1]);
    DecimalLength(ip[2]);
    DecimalLength(ip[3]);
    DecimalLength(port);
    hide Decimal;
  }
}
