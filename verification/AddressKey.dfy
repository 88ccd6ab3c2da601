/** The table key of a chat client: its address printed with "%s:%d", and taken apart again with
  strrchr, inet_addr and atoi (chatroom_server.c:82-117).
 */
module AddressKey {
  import opened Decimal
  import opened Option
  import opened StringSplit

  type Octet = n: nat | n < 256
  type Port = n: nat | n < 65536

  datatype Address = Address(a: Octet, b: Octet, c: Octet, d: Octet, port: Port)

  // inet_ntoa
  function Dotted(x: Address): string {
    Digits(x.a) + "." + (Digits(x.b) + "." + (Digits(x.c) + "." + Digits(x.d)))
  }

  // snprintf into a buffer of that size: one character is kept for the terminator.
  function Snprintf(size: nat, text: string): string
    requires size > 0
  {
    if |text| < size then text else text[..size - 1]
  }

  function Printed(x: Address): string {
    Dotted(x) + ":" + Digits(x.port)
  }

  function Key(x: Address): string {
    Snprintf(32, Printed(x))
  }

  // strrchr, as an index; -1 for a null pointer.
  function LastIndex(s: string, ch: char): (i: int)
    ensures -1 <= i < |s| && (i >= 0 ==> s[i] == ch)
    ensures forall k :: i < k < |s| ==> s[k] != ch
  {
    if s == "" || s[|s| - 1] == ch then |s| - 1 else LastIndex(s[..|s| - 1], ch)
  }

  // atoi on text without sign or leading blanks: the number in front.
  function DigitRun(s: string): (run: string)
    ensures AllDigits(run) && run <= s
  {
    if s == "" || !IsDigit(s[0]) then "" else [s[0]] + DigitRun(s[1..])
  }

  function Atoi(s: string): nat {
    Value(DigitRun(s))
  }

  // One decimal part of an address.  A leading zero would mean octal to inet_addr.
  function ParseOctet(s: string): Option<Octet> {
    if s == "" || !AllDigits(s) || (s[0] == '0' && |s| > 1) || Value(s) > 255 then None
    else Some(Value(s))
  }

  // inet_addr on four decimal parts.
  function InetAddr(s: string): Option<(Octet, Octet, Octet, Octet)> {
    var parts := LeftmostSplit(s, ".", -1);
    if |parts| != 4 then None
    else
      match (ParseOctet(parts[0]), ParseOctet(parts[1]), ParseOctet(parts[2]), ParseOctet(parts[3]))
      case (Some(a), Some(b), Some(c), Some(d)) => Some((a, b, c, d))
      case _ => None
  }

  // Cut at the last ':' and parse both halves; htons keeps 16 bits of the port.
  function ParseKey(key: string): Option<Address> {
    var colon := LastIndex(key, ':');
    if colon < 0 then None
    else
      match InetAddr(key[..colon])
      case None => None
      case Some(ip) => Some(Address(ip.0, ip.1, ip.2, ip.3, Atoi(key[colon + 1..]) % 65536))
  }

  lemma OctetLength(n: Octet)
    ensures |Digits(n)| <= 3
  {
    assert Pow10(3) == 10 * Pow10(2) == 100 * Pow10(1) == 1000 * Pow10(0) == 1000;
    DigitsLength(n, 3);
  }

  lemma PortLength(n: Port)
    ensures |Digits(n)| <= 5
  {
    assert Pow10(5) == 10 * Pow10(4) == 100 * Pow10(3);
    assert Pow10(3) == 10 * Pow10(2) == 100 * Pow10(1) == 1000 * Pow10(0) == 1000;
    DigitsLength(n, 5);
  }

  // Every key fits the 32-byte buffer uncut, in at most 21 characters.
  lemma KeyFits(x: Address)
    ensures |Printed(x)| <= 21 && Key(x) == Printed(x)
  {
    hide Digits;
    OctetLength(x.a);
    OctetLength(x.b);
    OctetLength(x.c);
    OctetLength(x.d);
    PortLength(x.port);
  }

  lemma {:induction false} NoLeadingZero(n: nat)
    ensures Digits(n)[0] == '0' ==> |Digits(n)| == 1
    ensures n > 0 ==> Digits(n)[0] != '0'
  {
    if n >= 10 {
      NoLeadingZero(n / 10);
      assert Digits(n)[0] == Digits(n / 10)[0];
    }
  }

  lemma {:induction false} OctetParses(n: Octet)
    ensures ParseOctet(Digits(n)) == Some(n)
    ensures '.' !in Digits(n) && ':' !in Digits(n) && '>' !in Digits(n)
  {
    hide Digits, Value;
    DigitsRoundTrip(n);
    NoLeadingZero(n);
  }

  lemma {:induction false} DottedParses(x: Address)
    ensures InetAddr(Dotted(x)) == Some((x.a, x.b, x.c, x.d))
    ensures ':' !in Dotted(x) && '>' !in Dotted(x)
  {
    hide Digits, LeftmostSplit, ParseOctet;
    OctetParses(x.a);
    OctetParses(x.b);
    OctetParses(x.c);
    OctetParses(x.d);
    SplitOne(Digits(x.a), ".", Digits(x.b) + "." + (Digits(x.c) + "." + Digits(x.d)), -1);
    SplitOne(Digits(x.b), ".", Digits(x.c) + "." + Digits(x.d), -1);
    SplitOne(Digits(x.c), ".", Digits(x.d), -1);
    SplitNone(Digits(x.d), ".", -1);
  }

  lemma {:induction false} AllIsRun(s: string)
    requires AllDigits(s)
    ensures DigitRun(s) == s
  {
    if s != "" {
      AllIsRun(s[1..]);
    }
  }

  lemma {:induction false} LastColon(before: string, after: string)
    requires ':' !in after
    ensures LastIndex(before + ":" + after, ':') == |before|
  {
    hide LastIndex;
    var s := before + ":" + after;
    var i := LastIndex(s, ':');
    assert s[|before|] == ':';
  }

  // Printing an address as a key and parsing the key gives the address back.
  lemma KeyRoundTrip(x: Address)
    ensures ParseKey(Key(x)) == Some(x)
  {
    hide Digits, Dotted, InetAddr, Value;
    KeyFits(x);
    DottedParses(x);
    DigitsRoundTrip(x.port);
    var port := Digits(x.port);
    LastColon(Dotted(x), port);
    assert Printed(x)[..|Dotted(x)|] == Dotted(x);
    assert Printed(x)[|Dotted(x)| + 1..] == port;
    AllIsRun(port);
  }

  lemma KeyExample()
    ensures Dotted(Address(10, 0, 0, 1, 8080)) == "10.0.0.1" && Key(Address(10, 0, 0, 1, 8080)) == "10.0.0.1:8080"
  {
    var x := Address(10, 0, 0, 1, 8080);
    assert Digits(1) == "1" && Digits(0) == "0" && Digits(10) == Digits(1) + Digits(0);
    assert Digits(8) == "8" && Digits(80) == Digits(8) + "0";
    assert Digits(808) == Digits(80) + "8" && Digits(8080) == Digits(808) + "0";
    KeyFits(x);
  }

  lemma KeysAreDistinct(x: Address, y: Address)
    ensures Key(x) == Key(y) <==> x == y
  {
    KeyRoundTrip(x);
    KeyRoundTrip(y);
  }
}
