/** Node descriptors and the identity key the control service files them
    under: address, then ':', then the port in decimal, then '-', then the
    name in lower case. */
module NodeKey {
  import Decimal

  /** An unsigned 32-bit port number. */
  type Port = p: nat | p < 0x1_0000_0000

  /** A node descriptor: the role a node plays, its host and its port. */
  datatype Node = Node(serviceName: string, serviceAddress: string, servicePort: Port)

  /** ASCII lower-casing of one character; every other character is kept. */
  function LowerChar(c: char): char {
    if 'A' <= c <= 'Z' then (c as int - 'A' as int + 'a' as int) as char else c
  }

  /** ASCII lower-casing of a string, character by character. */
  function Lower(s: string): (r: string)
    ensures |r| == |s|
    ensures forall i :: 0 <= i < |s| ==> r[i] == LowerChar(s[i])
  {
    if s == [] then [] else [LowerChar(s[0])] + Lower(s[1..])
  }

  /** Two characters that are equal, or are the upper- and lower-case forms
      of one ASCII letter. */
  predicate SameUpToCase(x: char, y: char) {
    || x == y
    || ('A' <= x <= 'Z' && y as int == x as int + 32)
    || ('A' <= y <= 'Z' && x as int == y as int + 32)
  }

  /** Two names that are equal when ASCII letter case is ignored. */
  predicate EqualIgnoringCase(a: string, b: string) {
    |a| == |b| && forall i :: 0 <= i < |a| ==> SameUpToCase(a[i], b[i])
  }

  /** The identity key of a node. */
  function Key(n: Node): (k: string) {
    n.serviceAddress + ":" + Decimal.Format(n.servicePort) + "-" + Lower(n.serviceName)
  }

  /** The key's parts mean what they say: it starts with the address and
      ':', the digits between ':' and the next '-' read back as the port, and
      what follows that '-' is the name in lower case, equal to the name up to
      letter case. */
  lemma KeyLayout(n: Node)
    ensures var k := Key(n); var a := |n.serviceAddress|; var d := Decimal.Format(n.servicePort);
      && |k| == a + 1 + |d| + 1 + |n.serviceName|
      && k[..a] == n.serviceAddress
      && k[a] == ':'
      && Decimal.AllDigits(k[a + 1..a + 1 + |d|])
      && Decimal.Parse(k[a + 1..a + 1 + |d|]) == n.servicePort
      && k[a + 1 + |d|] == '-'
      && Lower(k[a + 1 + |d| + 1..]) == k[a + 1 + |d| + 1..]
      && EqualIgnoringCase(k[a + 1 + |d| + 1..], n.serviceName)
  {
    var k := Key(n);
    var a := |n.serviceAddress|;
    var d := Decimal.Format(n.servicePort);
    assert k == n.serviceAddress + [':'] + d + ['-'] + Lower(n.serviceName);
    assert k[a + 1..a + 1 + |d|] == d;
    assert k[a + 1 + |d| + 1..] == Lower(n.serviceName);
    Decimal.ParseFormat(n.servicePort);
    LowerIdempotent(n.serviceName);
    LowerEqualIff(Lower(n.serviceName), n.serviceName);
  }

  /** Lower-casing forgets exactly the letter case. */
  lemma LowerEqualIff(a: string, b: string)
    ensures Lower(a) == Lower(b) <==> EqualIgnoringCase(a, b)
  {
    forall x: char, y: char ensures LowerChar(x) == LowerChar(y) <==> SameUpToCase(x, y) {
      LowerCharSame(x, y);
    }
  }

  /** Two characters lower-case alike exactly when they differ at most in case. */
  lemma LowerCharSame(x: char, y: char)
    ensures LowerChar(x) == LowerChar(y) <==> SameUpToCase(x, y)
  {
  }

  /** Lower-casing twice is lower-casing once. */
  lemma LowerIdempotent(s: string)
    ensures Lower(Lower(s)) == Lower(s)
  {
  }

  /** Nodes that differ only in the letter case of their name share a key. */
  lemma KeyIgnoresCase(m: Node, n: Node)
    requires m.serviceAddress == n.serviceAddress && m.servicePort == n.servicePort
    requires EqualIgnoringCase(m.serviceName, n.serviceName)
    ensures Key(m) == Key(n)
  {
  }

  /** In a digit string followed by '-', the first '-' is the one after the digits. */
  lemma FirstDash(d: string, s: string)
    requires Decimal.AllDigits(d)
    ensures (d + "-" + s)[|d|] == '-'
    ensures forall i :: 0 <= i < |d| ==> (d + "-" + s)[i] != '-'
  {
  }

  /** Two digit strings followed by '-' can be told apart at the first '-'. */
  lemma SplitAtDash(d1: string, s1: string, d2: string, s2: string)
    requires Decimal.AllDigits(d1) && Decimal.AllDigits(d2)
    requires d1 + "-" + s1 == d2 + "-" + s2
    ensures d1 == d2 && s1 == s2
  {
    var l1 := d1 + "-" + s1;
    var l2 := d2 + "-" + s2;
    FirstDash(d1, s1);
    FirstDash(d2, s2);
    assert |d1| == |d2|;
    assert d1 == l1[..|d1|] && d2 == l2[..|d2|];
    assert s1 == l1[|d1| + 1..] && s2 == l2[|d2| + 1..];
  }

  /** For nodes at one address the key identifies the port and the name up
      to letter case, and nothing else. */
  lemma KeyAtAddress(m: Node, n: Node)
    requires m.serviceAddress == n.serviceAddress
    ensures Key(m) == Key(n) <==>
      m.servicePort == n.servicePort && EqualIgnoringCase(m.serviceName, n.serviceName)
  {
    var a := m.serviceAddress + ":";
    var rm := Decimal.Format(m.servicePort) + "-" + Lower(m.serviceName);
    var rn := Decimal.Format(n.servicePort) + "-" + Lower(n.serviceName);
    assert Key(m) == a + rm && Key(n) == a + rn;
    LowerEqualIff(m.serviceName, n.serviceName);
    if Key(m) == Key(n) {
      assert rm == (a + rm)[|a|..] && rn == (a + rn)[|a|..];
      SplitAtDash(Decimal.Format(m.servicePort), Lower(m.serviceName),
                  Decimal.Format(n.servicePort), Lower(n.serviceName));
      Decimal.FormatInjective(m.servicePort, n.servicePort);
    }
  }

  /** The key is not injective across addresses: ':' and '-' may occur
      inside an address or a name, so two different nodes can share a key. */
  lemma KeyCollidesAcrossAddresses()
    ensures var m := Node("b:1-c", "a", 1); var n := Node("c", "a:1-b", 1);
      m != n && Key(m) == Key(n)
  {
  }
}
