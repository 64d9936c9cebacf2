/**
 * net/peer.go: a peer is known by its address string. CreatePeer trims
 * white space and appends the default server port unless the address
 * already ends in a port suffix, as matched by the regular expression
 * `:\d{0,5}$`.
 */
module Peers {

  datatype Peer = Peer(address: string)

  /** A port number whose decimal form has at most five digits, as the default server port has. */
  type Port = p: int | 0 <= p < 100000

  /** unicode.IsSpace: the Latin-1 spaces and the other White_Space characters. */
  predicate IsSpace(c: char)
  {
    || c == '\t' || c == '\n' || c == '\U{0B}' || c == '\U{0C}' || c == '\r' || c == ' '
    || c == '\U{85}' || c == '\U{A0}' || c == '\U{1680}'
    || ('\U{2000}' <= c <= '\U{200A}')
    || c == '\U{2028}' || c == '\U{2029}' || c == '\U{202F}' || c == '\U{205F}' || c == '\U{3000}'
  }

  /** The ASCII digits, which is what \d matches in Go's regexp syntax. */
  predicate IsDigit(c: char)
  {
    '0' <= c <= '9'
  }

  /** s without its leading white space. */
  function TrimLeftSpace(s: string): (r: string)
    ensures |r| <= |s|
  {
    if s == [] || !IsSpace(s[0]) then s else TrimLeftSpace(s[1..])
  }

  /** s without its trailing white space. */
  function TrimRightSpace(s: string): (r: string)
    ensures |r| <= |s|
  {
    if s == [] || !IsSpace(s[|s| - 1]) then s else TrimRightSpace(s[..|s| - 1])
  }

  /** strings.TrimSpace. */
  function TrimSpace(s: string): string
  {
    TrimRightSpace(TrimLeftSpace(s))
  }

  /** TrimLeftSpace removes exactly the leading white space: a suffix that does not start with space remains. */
  lemma {:induction false} TrimLeftSpaceSpec(s: string)
    ensures var r := TrimLeftSpace(s);
      && r == s[|s| - |r|..]
      && (r == [] || !IsSpace(r[0]))
      && forall k :: 0 <= k < |s| - |r| ==> IsSpace(s[k])
  {
    if s != [] && IsSpace(s[0]) {
      TrimLeftSpaceSpec(s[1..]);
    }
  }

  /** TrimRightSpace removes exactly the trailing white space: a prefix that does not end with space remains. */
  lemma {:induction false} TrimRightSpaceSpec(s: string)
    ensures var r := TrimRightSpace(s);
      && r == s[..|r|]
      && (r == [] || !IsSpace(r[|r| - 1]))
      && forall k :: |r| <= k < |s| ==> IsSpace(s[k])
  {
    if s != [] && IsSpace(s[|s| - 1]) {
      TrimRightSpaceSpec(s[..|s| - 1]);
    }
  }

  /** The ends of TrimLeftSpace: a suffix of s that does not start with space. */
  lemma TrimLeftSpaceEnds(s: string)
    ensures var r := TrimLeftSpace(s);
      r == s[|s| - |r|..] && (r == [] || !IsSpace(r[0]))
  {
    TrimLeftSpaceSpec(s);
  }

  /** The ends of TrimRightSpace: a prefix of s that does not end with space. */
  lemma TrimRightSpaceEnds(s: string)
    ensures var r := TrimRightSpace(s);
      r == s[..|r|] && (r == [] || !IsSpace(r[|r| - 1]))
  {
    TrimRightSpaceSpec(s);
  }

  /**
   * The trimmed address starts and ends with a non-space and it is the
   * middle of s.
   */
  lemma TrimSpaceTrims(s: string)
    ensures var t := TrimSpace(s);
      var i := |s| - |TrimLeftSpace(s)|;
      && (t == [] || (!IsSpace(t[0]) && !IsSpace(t[|t| - 1])))
      && i + |t| <= |s| && t == s[i..i + |t|]
  {
    var l := TrimLeftSpace(s);
    var t := TrimRightSpace(l);
    TrimLeftSpaceEnds(s);
    TrimRightSpaceEnds(l);
    PrefixOfSuffix(s, |s| - |l|, l, t);
  }

  /** A prefix t of the suffix of s from i is the slice of s from i of t's length, with l's first element. */
  lemma PrefixOfSuffix(s: string, i: nat, l: string, t: string)
    requires i <= |s| && l == s[i..] && |t| <= |l| && t == l[..|t|]
    ensures i + |t| <= |s| && t == s[i..i + |t|]
    ensures t != [] ==> t[0] == l[0]
  {
    assert s[i..][..|t|] == s[i..i + |t|];
  }

  /** Everything TrimSpace cuts off on either side of s is white space. */
  lemma TrimSpaceCutsSpace(s: string)
    ensures var t := TrimSpace(s);
      var i := |s| - |TrimLeftSpace(s)|;
      && (forall k :: 0 <= k < i ==> IsSpace(s[k]))
      && (forall k :: i + |t| <= k < |s| ==> IsSpace(s[k]))
  {
    var l := TrimLeftSpace(s);
    var t := TrimRightSpace(l);
    var i := |s| - |l|;
    TrimLeftSpaceSpec(s);
    TrimRightSpaceSpec(l);
    forall k | i + |t| <= k < |s|
      ensures IsSpace(s[k])
    {
      assert s[k] == l[k - i];
    }
  }

  /** A string that neither starts nor ends with white space is its own trim. */
  lemma TrimSpaceOfTrimmed(s: string)
    requires s == [] || (!IsSpace(s[0]) && !IsSpace(s[|s| - 1]))
    ensures TrimSpace(s) == s
  {
  }

  /** Trimming twice trims nothing more. */
  lemma TrimSpaceIdempotent(s: string)
    ensures TrimSpace(TrimSpace(s)) == TrimSpace(s)
  {
    TrimSpaceTrims(s);
    TrimSpaceOfTrimmed(TrimSpace(s));
  }

  /** The regular expression `:\d{0,5}$` finds a match in s. */
  ghost predicate MatchesPortSuffix(s: string)
  {
    exists i :: 0 <= i < |s| && s[i] == ':' && |s| - (i + 1) <= 5
      && forall k :: i < k < |s| ==> IsDigit(s[k])
  }

  /** The number of digits at the end of s. */
  function TrailingDigits(s: string): (n: nat)
    ensures n <= |s|
    ensures forall k :: |s| - n <= k < |s| ==> IsDigit(s[k])
    ensures n < |s| ==> !IsDigit(s[|s| - 1 - n])
  {
    if s == [] || !IsDigit(s[|s| - 1]) then 0 else 1 + TrailingDigits(s[..|s| - 1])
  }

  /** The port-suffix test as a scan from the end: a ':' before at most five trailing digits. */
  predicate HasPortSuffix(s: string)
  {
    var n := TrailingDigits(s);
    n <= 5 && n < |s| && s[|s| - 1 - n] == ':'
  }

  /** The scan from the end agrees with the regular expression on every string. */
  lemma HasPortSuffixMatches(s: string)
    ensures HasPortSuffix(s) <==> MatchesPortSuffix(s)
  {
    var n := TrailingDigits(s);
    if MatchesPortSuffix(s) {
      var i :| 0 <= i < |s| && s[i] == ':' && |s| - (i + 1) <= 5
        && forall k :: i < k < |s| ==> IsDigit(s[k]);
      assert !IsDigit(s[i]);
    }
    if HasPortSuffix(s) {
      assert |s| - 1 - n < |s|;
    }
  }

  /** The decimal digit for 0..9. */
  function DigitChar(d: int): (c: char)
    requires 0 <= d < 10
    ensures IsDigit(c)
  {
    ['0', '1', '2', '3', '4', '5', '6', '7', '8', '9'][d]
  }

  /** The decimal form of n, as the %d verb prints it. */
  function Decimal(n: nat): (s: string)
    ensures 0 < |s|
    ensures forall k :: 0 <= k < |s| ==> IsDigit(s[k])
    ensures n < 10 ==> |s| == 1
    ensures n < 100 ==> |s| <= 2
    ensures n < 1000 ==> |s| <= 3
    ensures n < 10000 ==> |s| <= 4
    ensures n < 100000 ==> |s| <= 5
  {
    if n < 10 then [DigitChar(n)] else Decimal(n / 10) + [DigitChar(n % 10)]
  }

  /** The value of a decimal digit. */
  function DigitValue(c: char): (d: nat)
    requires IsDigit(c)
    ensures d < 10
  {
    c as int - '0' as int
  }

  /** The value of a string of decimal digits. */
  function DecimalValue(s: string): nat
    requires forall k :: 0 <= k < |s| ==> IsDigit(s[k])
  {
    if s == [] then 0 else DecimalValue(s[..|s| - 1]) * 10 + DigitValue(s[|s| - 1])
  }

  /** Reading back the decimal form gives the number. */
  lemma {:induction false} DecimalValueOfDecimal(n: nat)
    ensures DecimalValue(Decimal(n)) == n
  {
    var s := Decimal(n);
    if n >= 10 {
      DecimalValueOfDecimal(n / 10);
      assert s[..|s| - 1] == Decimal(n / 10);
    }
  }

  /**
   * CreatePeer: the trimmed address, with ":" and the decimal server port
   * appended unless it already ends in a port suffix.
   */
  function CreatePeer(address: string, serverPort: Port): (p: Peer)
    ensures TrimSpace(address) <= p.address
    ensures p.address == TrimSpace(address) <==> HasPortSuffix(TrimSpace(address))
  {
    var trimmed := TrimSpace(address);
    if HasPortSuffix(trimmed) then Peer(trimmed)
    else Peer(trimmed + ":" + Decimal(serverPort))
  }

  /**
   * The address is the trimmed input, unchanged when the regular expression
   * matches it and followed by exactly one ":<port>" otherwise.
   */
  lemma CreatePeerAddress(address: string, serverPort: Port)
    ensures MatchesPortSuffix(TrimSpace(address)) ==> CreatePeer(address, serverPort).address == TrimSpace(address)
    ensures !MatchesPortSuffix(TrimSpace(address))
      ==> CreatePeer(address, serverPort).address == TrimSpace(address) + ":" + Decimal(serverPort)
  {
    HasPortSuffixMatches(TrimSpace(address));
  }

  /** A ':' followed by one to five digits is a port suffix, whatever precedes it. */
  lemma AppendedPortMatches(t: string, d: string)
    requires 0 < |d| <= 5 && forall k :: 0 <= k < |d| ==> IsDigit(d[k])
    ensures MatchesPortSuffix(t + ":" + d)
  {
    var a := t + ":" + d;
    assert a[|t|] == ':';
    assert forall k :: |t| < k < |a| ==> a[k] == d[k - |t| - 1];
  }

  /** A created address never starts or ends with white space, and always ends in a port suffix. */
  lemma CreatePeerShape(address: string, serverPort: Port)
    ensures var a := CreatePeer(address, serverPort).address;
      && a != []
      && !IsSpace(a[0]) && !IsSpace(a[|a| - 1])
      && MatchesPortSuffix(a)
  {
    var t := TrimSpace(address);
    TrimSpaceTrims(address);
    if HasPortSuffix(t) {
      HasPortSuffixMatches(t);
    } else {
      var d := Decimal(serverPort);
      var a := t + ":" + d;
      assert a[|a| - 1] == d[|d| - 1];
      assert !IsSpace(':');
      assert !IsSpace(a[|a| - 1]) by {
        DigitIsNotSpace(d[|d| - 1]);
      }
      assert a[0] == if t == [] then ':' else t[0];
      AppendedPortMatches(t, d);
    }
  }

  lemma DigitIsNotSpace(c: char)
    requires IsDigit(c)
    ensures !IsSpace(c)
  {
  }

  /** Creating a peer from a created peer's address changes nothing. */
  lemma CreatePeerIdempotent(address: string, serverPort: Port)
    ensures CreatePeer(CreatePeer(address, serverPort).address, serverPort) == CreatePeer(address, serverPort)
  {
    var a := CreatePeer(address, serverPort).address;
    CreatePeerShape(address, serverPort);
    TrimSpaceOfTrimmed(a);
    HasPortSuffixMatches(a);
  }

  /** Digits after a string that does not end in a digit are its trailing digits. */
  lemma {:induction false} TrailingDigitsAfter(t: string, d: string)
    requires t == [] || !IsDigit(t[|t| - 1])
    requires forall k :: 0 <= k < |d| ==> IsDigit(d[k])
    ensures TrailingDigits(t + d) == |d|
  {
    if d != [] {
      assert (t + d)[..|t + d| - 1] == t + d[..|d| - 1];
      TrailingDigitsAfter(t, d[..|d| - 1]);
    } else {
      assert t + d == t;
    }
  }

  /** A plain IPv4 address gets the default port. */
  lemma ExampleDefaultPort()
    ensures CreatePeer("10.0.0.5", 4444).address == "10.0.0.5:4444"
  {
    var host := "10.0.0.5";
    Ipv4NoSuffix();
    AppendsPort(host, 4444);
    DecimalExample();
    assert host + ":" + "4444" == "10.0.0.5:4444";
  }

  /** "10.0.0.5" is already trimmed and has no port suffix. */
  lemma Ipv4NoSuffix()
    ensures TrimSpace("10.0.0.5") == "10.0.0.5" && !HasPortSuffix("10.0.0.5")
  {
    var host := "10.0.0.5";
    assert host == "10.0.0." + "5";
    TrailingDigitsAfter("10.0.0.", "5");
    TrimSpaceOfTrimmed(host);
  }

  /** An address with a port keeps it. */
  lemma ExampleExplicitPort()
    ensures CreatePeer("10.0.0.5:1234", 4444).address == "10.0.0.5:1234"
  {
    Ipv4WithPortSuffix();
  }

  /** "10.0.0.5:1234" is already trimmed and ends in a port suffix. */
  lemma Ipv4WithPortSuffix()
    ensures TrimSpace("10.0.0.5:1234") == "10.0.0.5:1234" && HasPortSuffix("10.0.0.5:1234")
  {
    var host := "10.0.0.5:1234";
    assert host == "10.0.0.5:" + "1234";
    TrailingDigitsAfter("10.0.0.5:", "1234");
    TrimSpaceOfTrimmed(host);
  }

  /** An IPv6 literal without brackets is taken for an address with port 1, as the source's comment warns. */
  lemma ExampleIpv6Literal()
    ensures CreatePeer(" ::1 ", 4444).address == "::1"
  {
    assert TrimLeftSpace(" ::1 ") == "::1 ";
    assert TrimSpace(" ::1 ") == "::1";
    assert "::1" == "::" + "1";
    TrailingDigitsAfter("::", "1");
  }

  /** A bare trailing ':' counts as a port suffix with no digits. */
  lemma ExampleBareColon()
    ensures CreatePeer("host:", 4444).address == "host:"
  {
    assert TrimSpace("host:") == "host:";
    assert TrailingDigits("host:") == 0;
  }

  /** Six digits are too many for the port suffix, so the default port is appended after them. */
  lemma ExampleSixDigitPort()
    ensures CreatePeer("host:123456", 4444).address == "host:123456:4444"
  {
    var host := "host:123456";
    SixDigitsNoSuffix();
    AppendsPort(host, 4444);
    DecimalExample();
    assert host + ":" + "4444" == "host:123456:4444";
  }

  /** "host:123456" is already trimmed and its six digits are no port suffix. */
  lemma SixDigitsNoSuffix()
    ensures TrimSpace("host:123456") == "host:123456" && !HasPortSuffix("host:123456")
  {
    var host := "host:123456";
    assert host == "host:" + "123456";
    TrailingDigitsAfter("host:", "123456");
    TrimSpaceOfTrimmed(host);
  }

  /** The port used in the examples prints as "4444". */
  lemma DecimalExample()
    ensures Decimal(4444) == "4444"
  {
  }

  /** A trimmed address without a port suffix gets ":<port>" appended. */
  lemma AppendsPort(address: string, serverPort: Port)
    requires TrimSpace(address) == address && !HasPortSuffix(address)
    ensures CreatePeer(address, serverPort).address == address + ":" + Decimal(serverPort)
  {
  }
}
