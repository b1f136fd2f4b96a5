/**
 * Cluster::bootstrap: a comma-separated list of `host:port` servers becomes
 * one node per entry, in order, with ids "-1", "-2", ... from a counter
 * decremented before each use, no rack, and no cluster id. Splitting is
 * PHP's explode, the port PHP's (int) cast of a string and the id PHP's
 * (string) cast of an int; all three are modelled here.
 */
module Clusters {
  import opened Wire
  import opened Errors

  /** Node: an id, a host and port to connect to, and a rack. */
  datatype Node = Node(id: string, host: string, port: PhpInt, rack: Option<string>)

  /** Cluster: an id and the brokers it knows. */
  datatype Cluster = Cluster(id: Option<string>, brokers: seq<Node>)

  // ------------------------------------------------------------ explode and its inverse

  /** explode($sep, $s): the pieces between separators, at least one, possibly empty. */
  function Split(s: string, sep: char): (parts: seq<string>)
    ensures |parts| >= 1
    decreases |s|
  {
    if s == [] then [""]
    else
      var rest := Split(s[1..], sep);
      if s[0] == sep then [""] + rest
      else [[s[0]] + rest[0]] + rest[1..]
  }

  /** implode($sep, $parts) */
  function Join(parts: seq<string>, sep: char): (s: string)
    requires |parts| >= 1
    decreases |parts|
  {
    if |parts| == 1 then parts[0] else parts[0] + [sep] + Join(parts[1..], sep)
  }

  /** No piece explode returns contains the separator. */
  lemma {:induction false} SplitPiecesLackSeparator(s: string, sep: char)
    ensures forall i :: 0 <= i < |Split(s, sep)| ==> sep !in Split(s, sep)[i]
    decreases |s|
  {
    if s != [] {
      SplitPiecesLackSeparator(s[1..], sep);
    }
  }

  /** Joining the pieces with the separator gives back the string split. */
  lemma {:induction false} JoinSplit(s: string, sep: char)
    ensures Join(Split(s, sep), sep) == s
    decreases |s|
  {
    if s != [] {
      var rest := Split(s[1..], sep);
      JoinSplit(s[1..], sep);
      if s[0] == sep {
        assert ([""] + rest)[1..] == rest;
      } else {
        var parts := [[s[0]] + rest[0]] + rest[1..];
        if |rest| > 1 {
          assert parts[1..] == rest[1..];
        }
      }
    }
  }

  /** A piece free of the separator stays whole at the front of what follows it. */
  lemma {:induction false} SplitPrefix(p: string, tail: string, sep: char)
    requires sep !in p
    ensures Split(p + tail, sep) == [p + Split(tail, sep)[0]] + Split(tail, sep)[1..]
    decreases |p|
  {
    if p != [] {
      var t := Split(tail, sep);
      assert p[0] in p;
      assert (p + tail)[0] == p[0] != sep && (p + tail)[1..] == p[1..] + tail;
      assert Split(p + tail, sep) == [[p[0]] + Split(p[1..] + tail, sep)[0]] + Split(p[1..] + tail, sep)[1..];
      SplitPrefix(p[1..], tail, sep);
      var rest := Split(p[1..] + tail, sep);
      assert rest == [p[1..] + t[0]] + t[1..];
      assert rest[0] == p[1..] + t[0] && rest[1..] == t[1..];
      assert [p[0]] + (p[1..] + t[0]) == p + t[0];
    } else {
      var t := Split(tail, sep);
      assert p + tail == tail && p + t[0] == t[0];
      assert [t[0]] + t[1..] == t;
    }
  }

  /** Pieces free of the separator, joined and split again, come back unchanged. */
  lemma {:induction false} SplitJoin(parts: seq<string>, sep: char)
    requires |parts| >= 1
    requires forall i :: 0 <= i < |parts| ==> sep !in parts[i]
    ensures Split(Join(parts, sep), sep) == parts
    decreases |parts|
  {
    if |parts| == 1 {
      SplitPrefix(parts[0], "", sep);
      assert parts[0] + "" == parts[0];
    } else {
      var tail := Join(parts[1..], sep);
      SplitJoin(parts[1..], sep);
      assert parts[0] + [sep] + tail == parts[0] + ([sep] + tail);
      SplitPrefix(parts[0], [sep] + tail, sep);
      assert ([sep] + tail)[0] == sep && ([sep] + tail)[1..] == tail;
      var after := Split([sep] + tail, sep);
      assert after == [""] + parts[1..];
      assert after[0] == "" && after[1..] == parts[1..];
      assert parts[0] + "" == parts[0];
      assert [parts[0]] + parts[1..] == parts;
    }
  }

  // ------------------------------------------------------------ integers as decimal text

  predicate IsDigit(c: char) {
    '0' <= c <= '9'
  }

  /** The whitespace PHP skips before a numeric string: space, \t, \n, \r, \v, \f. */
  predicate IsSpace(c: char) {
    c == ' ' || c == '\t' || c == '\n' || c == '\r' || c == 11 as char || c == 12 as char
  }

  function DigitValue(c: char): (d: nat)
    requires IsDigit(c)
    ensures d < 10
  {
    (c - '0') as nat
  }

  function DigitChar(d: nat): (c: char)
    requires d < 10
    ensures IsDigit(c) && DigitValue(c) == d
  {
    ('0' as int + d) as char
  }

  /** The value of a run of decimal digits. */
  function DecimalValue(digits: string): nat
    requires forall i :: 0 <= i < |digits| ==> IsDigit(digits[i])
  {
    if digits == [] then 0
    else DecimalValue(digits[..|digits| - 1]) * 10 + DigitValue(digits[|digits| - 1])
  }

  /** How many characters of `s` from the start satisfy IsSpace. */
  function LeadingSpaces(s: string): (n: nat)
    ensures n <= |s|
    ensures forall i :: 0 <= i < n ==> IsSpace(s[i])
    ensures n < |s| ==> !IsSpace(s[n])
  {
    if s == [] || !IsSpace(s[0]) then 0 else 1 + LeadingSpaces(s[1..])
  }

  /** How many characters of `s` from the start are digits. */
  function LeadingDigits(s: string): (n: nat)
    ensures n <= |s|
    ensures forall i :: 0 <= i < n ==> IsDigit(s[i])
    ensures n < |s| ==> !IsDigit(s[n])
  {
    if s == [] || !IsDigit(s[0]) then 0 else 1 + LeadingDigits(s[1..])
  }

  /** An integer held to PHP's int range, as an out-of-range numeric string saturates. */
  function Saturate(x: int): (r: PhpInt)
    ensures LONG_MIN <= x <= LONG_MAX ==> r == x
    ensures x > LONG_MAX ==> r == LONG_MAX
    ensures x < LONG_MIN ==> r == LONG_MIN
  {
    if x > LONG_MAX then LONG_MAX else if x < LONG_MIN then LONG_MIN else x
  }

  /**
   * PHP's (int) cast of a string: leading whitespace, an optional sign and
   * the decimal digits that follow; whatever comes after them is ignored,
   * and a string with no leading digits is 0.
   */
  function ToInt(s: string): PhpInt {
    var t := s[LeadingSpaces(s)..];
    var negative := t != [] && t[0] == '-';
    var u := if t != [] && (t[0] == '-' || t[0] == '+') then t[1..] else t;
    var magnitude := DecimalValue(u[..LeadingDigits(u)]);
    Saturate(if negative then -(magnitude as int) else magnitude)
  }

  /** PHP's (string) cast of a non-negative int: its decimal digits, no leading zeros. */
  function NatToString(n: nat): (s: string)
    ensures |s| >= 1 && forall i :: 0 <= i < |s| ==> IsDigit(s[i])
  {
    if n < 10 then [DigitChar(n)] else NatToString(n / 10) + [DigitChar(n % 10)]
  }

  /** PHP's (string) cast of an int. */
  function IntToString(x: int): string {
    if x < 0 then "-" + NatToString(-x) else NatToString(x)
  }

  lemma {:induction false} DecimalOfNatToString(n: nat)
    ensures DecimalValue(NatToString(n)) == n
  {
    if n >= 10 {
      var s := NatToString(n);
      assert s[..|s| - 1] == NatToString(n / 10);
      DecimalOfNatToString(n / 10);
    }
  }

  /** The decimal text of a non-negative int casts back to it. */
  lemma NatToStringRoundTrip(n: nat)
    requires n <= LONG_MAX
    ensures ToInt(NatToString(n)) == n
  {
    var s := NatToString(n);
    assert !IsSpace(s[0]) && s[0] != '-' && s[0] != '+';
    assert LeadingSpaces(s) == 0;
    assert LeadingDigits(s) == |s|;
    assert s[..|s|] == s;
    DecimalOfNatToString(n);
  }

  /** (int)(string)$x == $x for every PHP int. */
  lemma IntToStringRoundTrip(x: PhpInt)
    ensures ToInt(IntToString(x)) == x
  {
    if x >= 0 {
      NatToStringRoundTrip(x);
    } else {
      var d := NatToString(-(x as int));
      var s := "-" + d;
      assert !IsSpace(s[0]) && LeadingSpaces(s) == 0;
      assert s[1..] == d;
      assert LeadingDigits(d) == |d|;
      assert d[..|d|] == d;
      DecimalOfNatToString(-(x as int));
    }
  }

  /** Distinct numbers have distinct decimal text. */
  lemma NatToStringInjective(a: nat, b: nat)
    requires a != b
    ensures NatToString(a) != NatToString(b)
  {
    DecimalOfNatToString(a);
    DecimalOfNatToString(b);
  }

  // ------------------------------------------------------------ bootstrap

  /** `[$host, $port] = explode(':', $server)`: a missing port is null, cast to 0; further pieces are dropped. */
  function ParseServer(server: string): (string, PhpInt) {
    var parts := Split(server, ':');
    (parts[0], if |parts| >= 2 then ToInt(parts[1]) else 0)
  }

  /** The id of the node at `position`: the counter, decremented first, cast to a string. */
  function NodeId(position: nat): string {
    IntToString(-(position + 1))
  }

  /** The node the callback builds for the entry at `position`. */
  function NodeFor(position: nat, server: string): Node {
    var (host, port) := ParseServer(server);
    Node(NodeId(position), host, port, None)
  }

  /** Cluster::bootstrap */
  method Bootstrap(servers: string) returns (c: Cluster)
    ensures c.id == None
    ensures |c.brokers| == |Split(servers, ',')|
    ensures forall i :: 0 <= i < |c.brokers| ==> c.brokers[i] == NodeFor(i, Split(servers, ',')[i])
  {
    var entries := Split(servers, ',');
    var id := 0;
    var brokers: seq<Node> := [];
    var i := 0;
    while i < |entries|
      invariant 0 <= i <= |entries| && id == -i && |brokers| == i
      invariant forall k :: 0 <= k < i ==> brokers[k] == NodeFor(k, entries[k])
    {
      id := id - 1;
      var parts := Split(entries[i], ':');
      var port := if |parts| >= 2 then ToInt(parts[1]) else 0;
      brokers := brokers + [Node(IntToString(id), parts[0], port, None)];
      i := i + 1;
    }
    c := Cluster(None, brokers);
  }

  /** Node ids are negative positions counted from -1, and no two positions share one. */
  lemma NodeIds(i: nat, j: nat)
    ensures NodeId(i) == "-" + NatToString(i + 1)
    ensures i + 1 <= -LONG_MIN ==> ToInt(NodeId(i)) == -(i + 1)
    ensures i != j ==> NodeId(i) != NodeId(j)
  {
    if i + 1 <= -LONG_MIN {
      IntToStringRoundTrip(-(i + 1));
    }
    if i != j {
      NatToStringInjective(i + 1, j + 1);
      assert NodeId(i)[1..] == NatToString(i + 1);
      assert NodeId(j)[1..] == NatToString(j + 1);
    }
  }

  /** An entry without a colon is all host, and its port is 0. */
  lemma MissingPort(server: string)
    requires ':' !in server
    ensures ParseServer(server) == (server, 0)
  {
    SplitPrefix(server, "", ':');
    assert server + "" == server;
  }

  /** Anything after a second colon is ignored. */
  lemma ExtraPiecesIgnored(host: string, port: string, extra: string)
    requires ':' !in host && ':' !in port
    ensures ParseServer(host + ":" + port + ":" + extra) == ParseServer(host + ":" + port)
  {
    SplitPrefix(host, ":" + port + ":" + extra, ':');
    assert host + ":" + port + ":" + extra == host + (":" + port + ":" + extra);
    SplitPrefix(host, ":" + port, ':');
    assert host + ":" + port == host + (":" + port);
    assert (":" + port + ":" + extra)[1..] == port + (":" + extra);
    assert (":" + port)[1..] == port + "";
    SplitPrefix(port, ":" + extra, ':');
    SplitPrefix(port, "", ':');
  }

  /** The address Channel::connect dials for a node: `host . ':' . port`. */
  function Address(host: string, port: PhpInt): string {
    host + ":" + IntToString(port)
  }

  /** The text of an int holds neither a colon nor a comma. */
  lemma DecimalTextOnly(x: int)
    ensures ':' !in IntToString(x) && ',' !in IntToString(x)
  {
    if x < 0 {
      var d := NatToString(-x);
      assert IntToString(x) == ['-'] + d;
      assert ':' !in d && ',' !in d;
    }
  }

  /** An address is read back as the host and port it was built from. */
  lemma AddressRoundTrip(host: string, port: PhpInt)
    requires ':' !in host
    ensures ParseServer(Address(host, port)) == (host, port)
  {
    DecimalTextOnly(port);
    SplitPair(host, IntToString(port), ':');
    IntToStringRoundTrip(port);
  }

  /** Two pieces free of the separator, joined by it, split back into exactly those two. */
  lemma SplitPair(a: string, b: string, sep: char)
    requires sep !in a && sep !in b
    ensures Split(a + [sep] + b, sep) == [a, b]
  {
    SplitPrefix(b, "", sep);
    assert b + "" == b;
    assert Split([sep] + b, sep) == [""] + Split(b, sep) by {
      assert ([sep] + b)[0] == sep && ([sep] + b)[1..] == b;
    }
    assert a + [sep] + b == a + ([sep] + b);
    SplitPrefix(a, [sep] + b, sep);
    assert a + "" == a;
  }

  /**
   * Bootstrapping from the addresses of a list of hosts and ports, joined
   * with commas, yields exactly those hosts and ports, in order, with the
   * positional ids and no rack.
   */
  lemma BootstrapRoundTrip(hosts: seq<string>, ports: seq<PhpInt>, servers: seq<string>)
    requires |hosts| == |ports| == |servers| >= 1
    requires forall i :: 0 <= i < |hosts| ==> ':' !in hosts[i] && ',' !in hosts[i]
    requires forall i :: 0 <= i < |servers| ==> servers[i] == Address(hosts[i], ports[i])
    ensures Split(Join(servers, ','), ',') == servers
    ensures forall i :: 0 <= i < |servers| ==> NodeFor(i, servers[i]) == Node(NodeId(i), hosts[i], ports[i], None)
  {
    forall i | 0 <= i < |servers|
      ensures ',' !in servers[i]
    {
      DecimalTextOnly(ports[i]);
      assert servers[i] == hosts[i] + ":" + IntToString(ports[i]);
    }
    SplitJoin(servers, ',');
    forall i | 0 <= i < |servers|
      ensures NodeFor(i, servers[i]) == Node(NodeId(i), hosts[i], ports[i], None)
    {
      AddressRoundTrip(hosts[i], ports[i]);
    }
  }
}
