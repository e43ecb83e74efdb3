/** Reading the host out of a monitor address (utility/odf_defaults.py). */
module MonAddress {
  import opened Basics
  import opened Options

  // ----- parsing an address ------------------------------------------------

  /** Python's str.isspace on one character. */
  predicate Space(c: char) {
    || '\t' <= c <= '\r' || '\U{1c}' <= c <= ' ' || c == '\U{85}' || c == '\U{a0}' || c == '\U{1680}'
    || '\U{2000}' <= c <= '\U{200a}' || c == '\U{2028}' || c == '\U{2029}' || c == '\U{202f}'
    || c == '\U{205f}' || c == '\U{3000}'
  }

  predicate Bracket(c: char) { c == '[' || c == ']' }

  function StripLeft(s: string, drop: char -> bool): string {
    if s != "" && drop(s[0]) then StripLeft(s[1..], drop) else s
  }

  function Strip(s: string, drop: char -> bool): string { StripRight(StripLeft(s, drop), drop) }

  /** s.rsplit(c, 1)[0], for an s with a c in it. */
  function BeforeLast(s: string, c: char): string {
    if s == "" || s[|s| - 1] == c then s[..if s == "" then 0 else |s| - 1] else BeforeLast(s[..|s| - 1], c)
  }

  predicate Tagged(s: string) { |s| >= 3 && (s[..3] == "v2:" || s[..3] == "v1:") }

  predicate Digit(c: char) { '0' <= c <= '9' }

  /** The pattern for HOST:PORT: one colon, with a host before it and only digits after. */
  predicate HostPort(s: string) {
    var host := Before(s, ':');
    host != "" && |host| + 1 < |s| && forall k :: |host| < k < |s| ==> Digit(s[k])
  }

  function Untagged(s: string): string { if Tagged(s) then s[3..] else s }

  function HostOf(text: string): string {
    if HostPort(text) then Before(text, ':')
    else if ':' !in text then text
    else BeforeLast(text, ':')
  }

  /** _ip_from_addr_string. */
  function IpFrom(address: string): Option<string> {
    if address == "" then None
    else Some(HostOf(Before(Untagged(Strip(Strip(address, Space), Bracket)), '/')))
  }

  /** The port pattern never decides the result: where it matches, so does the last resort. */
  lemma PatternAgreesWithLastResort(s: string)
    requires HostPort(s)
    ensures ':' in s && BeforeLast(s, ':') == Before(s, ':')
  {
    var host := Before(s, ':');
    BeforeSplits(s, ':');
    assert s == host + ":" + s[|host| + 1..];
    LastOf(host, s[|host| + 1..], ':');
  }

  lemma {:induction false} BeforeSplits(s: string, c: char)
    ensures Before(s, c) <= s && c !in Before(s, c)
    ensures if c in s then |Before(s, c)| < |s| && s[|Before(s, c)|] == c else Before(s, c) == s
  {
    if s != "" && s[0] != c { BeforeSplits(s[1..], c); }
  }

  lemma {:induction false} LastOf(head: string, tail: string, c: char)
    requires c !in tail
    ensures BeforeLast(head + [c] + tail, c) == head
  {
    var s := head + [c] + tail;
    if tail == "" {
      assert s[..|s| - 1] == head;
    } else {
      assert s[..|s| - 1] == head + [c] + tail[..|tail| - 1];
      LastOf(head, tail[..|tail| - 1], c);
    }
  }

  // ----- the round trip through the printed address -------------------------

  /** The address the monmap shows after set-addrs [v2:HOST:3300/0]. */
  function Printed(host: string): string { host + ":3300" }

  /** Hosts that survive: no slash, no space or bracket in front, and no v1: or v2: in front
      once the port is behind. */
  predicate Plain(host: string) {
    host != "" && '/' !in host && !Space(host[0]) && !Bracket(host[0]) && !Tagged(Printed(host))
  }

  lemma {:induction false} StripPrinted(host: string, drop: char -> bool) returns (rest: string)
    requires !drop(':') && !drop('0')
    ensures Strip(Printed(host), drop) == Printed(rest) && |rest| <= |host| && rest == host[|host| - |rest|..]
    ensures |rest| == |host| <==> host == "" || !drop(host[0])
  {
    rest := host;
    if host != "" && drop(host[0]) {
      assert Printed(host)[1..] == Printed(host[1..]);
      rest := StripPrinted(host[1..], drop);
    }
  }

  lemma {:induction false} BeforeShort(s: string, c: char)
    requires c in s
    ensures |BeforeLast(s, c)| < |s|
  {
    if s[|s| - 1] != c { BeforeShort(s[..|s| - 1], c); }
  }

  lemma HostOfIsShort(text: string)
    ensures |HostOf(text)| <= |text|
  {
    BeforeSplits(text, ':');
    if ':' in text { BeforeShort(text, ':'); }
  }

  lemma {:induction false} BeforeEndsAt(s: string, c: char, k: nat)
    requires k < |s| && s[k] == c
    ensures |Before(s, c)| <= k
  {
    if s[0] != c { BeforeEndsAt(s[1..], c, k - 1); }
  }

  /** What cutting off the tag leaves of a printed address. */
  lemma UntagPrinted(host: string)
    requires Tagged(Printed(host))
    ensures |host| >= 2 && host[1] != '0'
    ensures Untagged(Printed(host)) == if |host| == 2 then "3300" else Printed(host[3..])
  {
    assert Printed(host)[..3][1] == Printed(host)[1];
    assert Printed(host)[..3][0] == Printed(host)[0];
  }

  /** Before a port, everything up to it is the host, unless a slash cuts it short. */
  lemma HostOfPrinted(host: string)
    ensures var r := HostOf(Before(Printed(host), '/'));
            if '/' in host then |r| < |host| else r == host
  {
    var text := Before(Printed(host), '/');
    BeforeSplits(Printed(host), '/');
    if '/' in host {
      var k :| 0 <= k < |host| && host[k] == '/';
      assert Printed(host)[k] == '/';
      BeforeEndsAt(Printed(host), '/', k);
      HostOfIsShort(text);
    } else {
      assert text == host + [':'] + "3300";
      LastOf(host, "3300", ':');
      if HostPort(text) { PatternAgreesWithLastResort(text); }
      assert text[|host|] == ':';
    }
  }

  /** Parsing the printed address gives the host back for plain hosts and for no other. */
  lemma RoundTripExactly(host: string)
    requires host != ""
    ensures IpFrom(Printed(host)) == Some(host) <==> Plain(host)
  {
    var x := StripPrinted(host, Space);
    var y := StripPrinted(x, Bracket);
    if !Tagged(Printed(y)) {
      HostOfPrinted(y);
    } else {
      UntagPrinted(y);
      if |y| == 2 {
        assert host[|host| - 1] == y[1];
        PortAlone();
      } else {
        HostOfPrinted(y[3..]);
      }
    }
  }

  lemma PortAlone()
    ensures HostOf(Before("3300", '/')) == "3300"
  {
    BeforeSplits("3300", '/');
    BeforeSplits("3300", ':');
  }

  /** The trailing nonce of the public address does not matter. */
  lemma NonceIgnored(host: string)
    ensures IpFrom(Printed(host) + "/0") == IpFrom(Printed(host))
  {
    var x := StripPrinted(host, Space);
    var y := StripPrinted(x, Bracket);
    StripNonce(host, Space);
    StripNonce(x, Bracket);
    UntagNonce(Printed(y));
    BeforeNonce(Untagged(Printed(y)));
  }

  lemma UntagNonce(s: string)
    requires |s| >= 3
    ensures Untagged(s + "/0") == Untagged(s) + "/0"
  {
    assert (s + "/0")[..3] == s[..3];
    assert (s + "/0")[3..] == s[3..] + "/0";
  }

  lemma {:induction false} StripNonce(host: string, drop: char -> bool)
    requires !drop(':') && !drop('0')
    ensures Strip(Printed(host) + "/0", drop) == Strip(Printed(host), drop) + "/0"
  {
    if host != "" && drop(host[0]) {
      assert Printed(host)[1..] == Printed(host[1..]);
      assert (Printed(host) + "/0")[1..] == Printed(host[1..]) + "/0";
      StripNonce(host[1..], drop);
    }
  }

  lemma {:induction false} BeforeNonce(s: string)
    ensures Before(s + "/0", '/') == Before(s, '/')
  {
    if s != "" && s[0] != '/' {
      assert (s + "/0")[1..] == s[1..] + "/0";
      BeforeNonce(s[1..]);
    }
  }

  /** The digits and colons of an IPv6 address. */
  predicate Ipv6(ip: string) {
    ip != "" && forall i :: 0 <= i < |ip| ==> Digit(ip[i]) || 'a' <= ip[i] <= 'f' || 'A' <= ip[i] <= 'F' || ip[i] == ':'
  }

  lemma Ipv6Plain(ip: string)
    requires Ipv6(ip)
    ensures Plain(ip + "]") && '/' !in "[" + ip + "]" && !Bracket(ip[0])
  {
    var s := Printed(ip + "]");
    assert s[..3][0] == s[0] == ip[0];
  }

  lemma NothingToStrip(s: string, drop: char -> bool)
    requires s != "" && !drop(s[0]) && !drop(s[|s| - 1])
    ensures Strip(s, drop) == s
  {
  }

  /** An IPv6 host in brackets with the port behind: the opening bracket is stripped with the
      ends, the closing one stays, and that host is plain. */
  lemma BracketedHost(ip: string)
    requires Ipv6(ip)
    ensures IpFrom(Printed("[" + ip + "]")) == Some(ip + "]") && Plain(ip + "]")
  {
    var s, rest := Printed("[" + ip + "]"), ip + "]";
    Ipv6Plain(ip);
    NothingToStrip(s, Space);
    assert s[1..] == Printed(rest);
    NothingToStrip(Printed(rest), Bracket);
    HostOfPrinted(rest);
  }

  /** Only behind a tag both brackets stay, and that host is not plain: printed by set-addrs,
      it is not read back. */
  lemma TaggedBracketedHost(ip: string)
    requires Ipv6(ip)
    ensures var host := "[" + ip + "]";
            IpFrom("v2:" + Printed(host) + "/0") == Some(host) && !Plain(host) &&
                IpFrom(Printed(host)) == Some(ip + "]")
  {
    var host := "[" + ip + "]";
    var address := "v2:" + Printed(host) + "/0";
    Ipv6Plain(ip);
    NothingToStrip(address, Space);
    NothingToStrip(address, Bracket);
    assert address[..3] == "v2:" && address[3..] == Printed(host) + "/0";
    BeforeNonce(Printed(host));
    HostOfPrinted(host);
    BracketedHost(ip);
  }
}
