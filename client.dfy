/** The reporting client: the MAC address rendering of the host's 48-bit node
    identifier, the collector's fall-back to an error object, and the single
    POST whose status decides success. Operating-system probes and the
    network are inputs. */
module Client {
  import opened Telemetry

  datatype Option<T> = None | Some(value: T)

  // ---------------------------------------------------------------------
  // Arithmetic on the node identifier.

  function Pow2(k: nat): (r: nat)
    ensures r > 0
  {
    if k == 0 then 1 else 2 * Pow2(k - 1)
  }

  lemma Pow2Byte(k: nat)
    ensures Pow2(k + 8) == 256 * Pow2(k)
  {
    assert Pow2(k + 8) == 2 * Pow2(k + 7) == 4 * Pow2(k + 6) == 8 * Pow2(k + 5) == 16 * Pow2(k + 4);
    assert Pow2(k + 4) == 2 * Pow2(k + 3) == 4 * Pow2(k + 2) == 8 * Pow2(k + 1) == 16 * Pow2(k);
  }

  lemma MulAtLeast(a: int, m: int)
    requires a >= 1 && m > 0
    ensures a * m >= m
  {
  }

  lemma MulSub(a: int, b: int, m: int)
    ensures a * m - b * m == (a - b) * m
  {
  }

  /** Quotient and remainder are determined by `n == q * m + r`, `0 <= r < m`. */
  lemma DivModUnique(n: int, m: int, q: int, r: int)
    requires m > 0 && 0 <= r < m && n == q * m + r
    ensures n / m == q && n % m == r
  {
    var q', r' := n / m, n % m;
    assert n == q' * m + r';
    MulSub(q, q', m);
    if q' < q {
      MulAtLeast(q - q', m);
    } else if q < q' {
      MulSub(q', q, m);
      MulAtLeast(q' - q, m);
    }
  }

  /** The remainder by `256 * p` is the low byte below the remainder by `p`
      of the rest. */
  lemma ByteSplit(n: int, p: int)
    requires p > 0
    ensures n % (256 * p) == ((n / 256) % p) * 256 + n % 256
  {
    var q, r := n / 256, n % 256;
    var q2, r2 := q / p, q % p;
    assert n == 256 * q + r;
    assert q == q2 * p + r2;
    assert n == q2 * (256 * p) + (r2 * 256 + r) by {
      assert 256 * q == 256 * (q2 * p) + 256 * r2;
      assert 256 * (q2 * p) == q2 * (256 * p);
    }
    assert r2 * 256 <= (p - 1) * 256;
    DivModUnique(n, 256 * p, q2, r2 * 256 + r);
  }

  /** Halving after a floored division by `p` is a floored division by
      `2 * p`. */
  lemma HalfOfQuotient(n: int, p: int)
    requires p > 0
    ensures (n / p) / 2 == n / (2 * p)
  {
    var q := n / p;
    var r := n % p;
    assert n == q * p + r;
    assert q == (q / 2) * 2 + q % 2;
    assert n == (q / 2) * (2 * p) + ((q % 2) * p + r) by {
      assert q * p == ((q / 2) * 2 + q % 2) * p;
      assert ((q / 2) * 2 + q % 2) * p == (q / 2) * (2 * p) + (q % 2) * p;
    }
    assert (q % 2) * p <= p;
    DivModUnique(n, 2 * p, q / 2, (q % 2) * p + r);
  }

  /** `n >> k`: Python shifts right by flooring, one halving per bit. */
  function ShiftRight(n: int, k: nat): int
  {
    if k == 0 then n else ShiftRight(n, k - 1) / 2
  }

  /** Shifting right by `k` is a floored division by `2^k`, for negative
      numbers too. */
  lemma {:induction false} ShiftRightDivides(n: int, k: nat)
    ensures ShiftRight(n, k) == n / Pow2(k)
    decreases k
  {
    if k > 0 {
      ShiftRightDivides(n, k - 1);
      HalfOfQuotient(n, Pow2(k - 1));
    }
  }

  lemma {:induction false} ShiftRightFirst(n: int, k: nat)
    ensures ShiftRight(n, k + 1) == ShiftRight(n / 2, k)
    decreases k
  {
    if k > 0 {
      ShiftRightFirst(n, k - 1);
    }
  }

  /** Shifting by one more byte is shifting the number without its low
      byte. */
  lemma ShiftRightByte(n: int, k: nat)
    ensures ShiftRight(n, k + 8) == ShiftRight(n / 256, k)
  {
    ShiftRightFirst(n, k + 7);
    ShiftRightFirst(n / 2, k + 6);
    ShiftRightFirst(n / 4, k + 5);
    ShiftRightFirst(n / 8, k + 4);
    ShiftRightFirst(n / 16, k + 3);
    ShiftRightFirst(n / 32, k + 2);
    ShiftRightFirst(n / 64, k + 1);
    ShiftRightFirst(n / 128, k);
    assert n / 2 / 2 == n / 4 && n / 4 / 2 == n / 8 && n / 8 / 2 == n / 16;
    assert n / 16 / 2 == n / 32 && n / 32 / 2 == n / 64 && n / 64 / 2 == n / 128;
    assert n / 128 / 2 == n / 256;
  }

  /** `(node >> shift) & 0xff`: `& 0xff` keeps the low eight bits of the
      two's complement value, which is `% 256`. */
  function Octet(node: int, shift: nat): (b: nat)
    ensures b < 256
  {
    ShiftRight(node, shift) % 256
  }

  lemma OctetShift(node: int, i: nat)
    ensures Octet(node, 8 * i + 8) == Octet(node / 256, 8 * i)
  {
    ShiftRightByte(node, 8 * i);
  }

  // ---------------------------------------------------------------------
  // Hexadecimal text.

  predicate IsHexDigit(c: char)
  {
    '0' <= c <= '9' || 'a' <= c <= 'f'
  }

  /** A lower-case hexadecimal digit. */
  function HexDigit(d: nat): (c: char)
    requires d < 16
    ensures IsHexDigit(c)
  {
    if d < 10 then (48 + d) as char else (87 + d) as char
  }

  function HexValue(c: char): (d: nat)
    requires IsHexDigit(c)
    ensures d < 16 && HexDigit(d) == c
  {
    if c <= '9' then c as int - 48 else c as int - 87
  }

  /** `'{:02x}'.format(b)`: two lower-case digits, zero-padded. */
  function Hex2(b: nat): (r: string)
    requires b < 256
    ensures |r| == 2 && IsHexDigit(r[0]) && IsHexDigit(r[1])
    ensures HexValue(r[0]) * 16 + HexValue(r[1]) == b
  {
    [HexDigit(b / 16), HexDigit(b % 16)]
  }

  // ---------------------------------------------------------------------
  // The MAC address expression.

  /** `sep.join(parts)` */
  function Join(sep: string, parts: seq<string>): (r: string)
    ensures |parts| > 0 ==> parts[0] <= r
    ensures |parts| > 1 ==> (parts[0] + sep) <= r
    ensures |parts| == 1 ==> r == parts[0]
  {
    if |parts| == 0 then ""
    else if |parts| == 1 then parts[0]
    else parts[0] + sep + Join(sep, parts[1..])
  }

  /** `s[::-1]` */
  function Reverse<T>(s: seq<T>): (r: seq<T>)
    ensures |r| == |s|
    ensures forall i :: 0 <= i < |s| ==> r[i] == s[|s| - 1 - i]
  {
    if s == [] then [] else Reverse(s[1..]) + [s[0]]
  }

  /** Joining two-character groups with `:` puts group `k / 3` at every
      position `k` that is not a separator. */
  lemma {:induction false} JoinOfPairs(parts: seq<string>)
    requires |parts| >= 1
    requires forall i :: 0 <= i < |parts| ==> |parts[i]| == 2
    ensures |Join(":", parts)| == 3 * |parts| - 1
    ensures forall k :: 0 <= k < 3 * |parts| - 1 ==>
      Join(":", parts)[k] == if k % 3 == 2 then ':' else parts[k / 3][k % 3]
    decreases |parts|
  {
    if |parts| > 1 {
      JoinOfPairs(parts[1..]);
      var j := Join(":", parts);
      var rest := Join(":", parts[1..]);
      assert j == parts[0] + ":" + rest;
      forall k | 0 <= k < 3 * |parts| - 1
        ensures j[k] == if k % 3 == 2 then ':' else parts[k / 3][k % 3]
      {
        if k >= 3 {
          assert j[k] == rest[k - 3];
          assert (k - 3) / 3 == k / 3 - 1 && (k - 3) % 3 == k % 3;
        }
      }
    }
  }

  /** The comprehension's list: octets at shifts 0, 8, ..., 40, least
      significant first. */
  function Groups(node: int): (g: seq<string>)
    ensures |g| == 6
    ensures forall i :: 0 <= i < 6 ==> |g[i]| == 2 && IsHexDigit(g[i][0]) && IsHexDigit(g[i][1])
    ensures forall i :: 0 <= i < 6 ==> |g[i]| == 2 && IsHexDigit(g[i][0]) && IsHexDigit(g[i][1])
  {
    seq(6, i requires 0 <= i < 6 => Hex2(Octet(node, 8 * i)))
  }

  /** Reversed, the list runs from the octet at shift 40 down to shift 0. */
  lemma ReversedGroups(node: int)
    ensures |Reverse(Groups(node))| == 6
    ensures forall i :: 0 <= i < 6 ==> Reverse(Groups(node))[i] == Hex2(Octet(node, 40 - 8 * i))
  {
    var g := Groups(node);
    forall i | 0 <= i < 6 ensures Reverse(g)[i] == Hex2(Octet(node, 40 - 8 * i)) {
      assert Reverse(g)[i] == g[5 - i];
      assert 8 * (5 - i) == 40 - 8 * i;
    }
  }

  /** Character `k` of the joined, reversed list, position by position. */
  lemma JoinedGroups(node: int)
    ensures |Join(":", Reverse(Groups(node)))| == 17
    ensures forall k :: 0 <= k < 17 && k % 3 == 2 ==> Join(":", Reverse(Groups(node)))[k] == ':'
    ensures forall k :: 0 <= k < 17 && k % 3 != 2 ==>
              Join(":", Reverse(Groups(node)))[k] == Hex2(Octet(node, 40 - 8 * (k / 3)))[k % 3]
  {
    var parts := Reverse(Groups(node));
    ReversedGroups(node);
    JoinOfPairs(parts);
    var r := Join(":", parts);
    forall k | 0 <= k < 17 && k % 3 != 2 ensures r[k] == Hex2(Octet(node, 40 - 8 * (k / 3)))[k % 3] {
      var i := k / 3;
      assert r[k] == parts[i][k % 3];
      assert parts[i] == Hex2(Octet(node, 40 - 8 * i));
    }
  }

  /** The `mac_address` field: six two-digit lower-case hex groups separated
      by `:`, the most significant octet first. */
  function MacAddress(node: int): (r: string)
    ensures |r| == 17
    ensures forall k :: 0 <= k < 17 && k % 3 == 2 ==> r[k] == ':'
    ensures forall k :: 0 <= k < 17 && k % 3 != 2 ==> r[k] == Hex2(Octet(node, 40 - 8 * (k / 3)))[k % 3]
  {
    JoinedGroups(node);
    Join(":", Reverse(Groups(node)))
  }

  // ---------------------------------------------------------------------
  // Reading a MAC address back.

  predicate IsMacShaped(s: string)
  {
    |s| == 17 && forall k :: 0 <= k < 17 ==> if k % 3 == 2 then s[k] == ':' else IsHexDigit(s[k])
  }

  /** Octets, most significant first, as one number. */
  function FromOctets(os: seq<nat>): nat
  {
    if os == [] then 0 else FromOctets(os[..|os| - 1]) * 256 + os[|os| - 1]
  }

  predicate AreOctets(os: seq<nat>)
  {
    forall i :: 0 <= i < |os| ==> os[i] < 256
  }

  /** The octets of a MAC-shaped string, group by group. */
  function ParsedOctets(s: string): (os: seq<nat>)
    requires IsMacShaped(s)
    ensures |os| == 6 && AreOctets(os)
  {
    seq(6, j requires 0 <= j < 6 => HexValue(s[3 * j]) * 16 + HexValue(s[3 * j + 1]))
  }

  /** Parse `xx:xx:xx:xx:xx:xx` in lower-case hex into the node identifier. */
  function ParseMac(s: string): Option<nat>
  {
    if IsMacShaped(s) then Some(FromOctets(ParsedOctets(s))) else None
  }

  /** The first `k` octets of `node` counted from the top of its low `8 * k`
      bits. */
  function BigEndian(node: int, k: nat): (os: seq<nat>)
    ensures |os| == k && AreOctets(os)
  {
    seq(k, j requires 0 <= j < k => Octet(node, 8 * (k - 1 - j)))
  }

  lemma {:induction false} FromBigEndian(node: int, k: nat)
    ensures FromOctets(BigEndian(node, k)) == node % Pow2(8 * k)
    decreases k
  {
    if k == 0 {
      assert BigEndian(node, 0) == [];
    } else {
      var os := BigEndian(node, k);
      assert os[..k - 1] == BigEndian(node / 256, k - 1) by {
        forall j | 0 <= j < k - 1 ensures os[j] == BigEndian(node / 256, k - 1)[j] {
          OctetShift(node, k - 2 - j);
          assert 8 * (k - 2 - j) + 8 == 8 * (k - 1 - j);
        }
      }
      assert os[k - 1] == Octet(node, 8 * (k - 1 - (k - 1)));
      assert os[k - 1] == node % 256;
      FromBigEndian(node / 256, k - 1);
      Pow2Byte(8 * (k - 1));
      ByteSplit(node, Pow2(8 * (k - 1)));
    }
  }

  lemma {:induction false} FromOctetsBound(os: seq<nat>)
    requires AreOctets(os)
    ensures FromOctets(os) < Pow2(8 * |os|)
    decreases |os|
  {
    if os != [] {
      var n := |os|;
      FromOctetsBound(os[..n - 1]);
      Pow2Byte(8 * (n - 1));
    }
  }

  lemma {:induction false} FromOctetsInjective(a: seq<nat>, b: seq<nat>)
    requires |a| == |b| && AreOctets(a) && AreOctets(b)
    requires FromOctets(a) == FromOctets(b)
    ensures a == b
    decreases |a|
  {
    if a != [] {
      var n := |a|;
      DivModUnique(FromOctets(a), 256, FromOctets(a[..n - 1]), a[n - 1]);
      DivModUnique(FromOctets(b), 256, FromOctets(b[..n - 1]), b[n - 1]);
      FromOctetsInjective(a[..n - 1], b[..n - 1]);
      assert a == a[..n - 1] + [a[n - 1]] && b == b[..n - 1] + [b[n - 1]];
    }
  }

  /** Group `j` of the rendering spells octet `5 - j` of the node. */
  lemma MacGroup(node: int, j: nat)
    requires j < 6
    ensures MacAddress(node)[3 * j] == Hex2(Octet(node, 40 - 8 * j))[0]
    ensures MacAddress(node)[3 * j + 1] == Hex2(Octet(node, 40 - 8 * j))[1]
  {
    assert (3 * j) / 3 == j && (3 * j + 1) / 3 == j && (3 * j) % 3 == 0 && (3 * j + 1) % 3 == 1;
  }

  lemma MacShaped(node: int)
    ensures IsMacShaped(MacAddress(node))
  {
    var s := MacAddress(node);
    forall k | 0 <= k < 17 && k % 3 != 2 ensures IsHexDigit(s[k]) {
      MacGroup(node, k / 3);
      assert k == 3 * (k / 3) + k % 3;
    }
  }

  /** A group spelled as the `{:02x}` rendering of an octet parses back to
      that octet. */
  lemma GroupValue(s: string, j: nat, o: nat)
    requires IsMacShaped(s) && j < 6 && o < 256
    requires s[3 * j] == Hex2(o)[0] && s[3 * j + 1] == Hex2(o)[1]
    ensures ParsedOctets(s)[j] == o
  {
    assert ParsedOctets(s)[j] == HexValue(s[3 * j]) * 16 + HexValue(s[3 * j + 1]);
  }

  /** Group `j` of the rendering decodes to octet `5 - j` of the node. */
  lemma MacOctet(node: int, j: nat)
    requires j < 6
    ensures IsMacShaped(MacAddress(node))
    ensures ParsedOctets(MacAddress(node))[j] == BigEndian(node, 6)[j]
  {
    MacShaped(node);
    var o := Octet(node, 40 - 8 * j);
    assert BigEndian(node, 6)[j] == o by {
      assert 8 * (6 - 1 - j) == 40 - 8 * j;
    }
    MacGroup(node, j);
    GroupValue(MacAddress(node), j, o);
  }

  /** The groups of `MacAddress(node)` are the big-endian octets of `node`. */
  lemma MacOctets(node: int)
    ensures IsMacShaped(MacAddress(node))
    ensures ParsedOctets(MacAddress(node)) == BigEndian(node, 6)
  {
    MacShaped(node);
    forall j | 0 <= j < 6 ensures ParsedOctets(MacAddress(node))[j] == BigEndian(node, 6)[j] {
      MacOctet(node, j);
    }
  }

  /** Decoding the rendering gives the node's low 48 bits. */
  lemma MacRoundTrip(node: int)
    ensures ParseMac(MacAddress(node)) == Some(node % Pow2(48))
  {
    MacOctets(node);
    FromBigEndian(node, 6);
  }

  /** Six octets read as a number and split again give the same octets. */
  lemma OctetsRoundTrip(os: seq<nat>)
    requires |os| == 6 && AreOctets(os)
    ensures FromOctets(os) < Pow2(48)
    ensures BigEndian(FromOctets(os), 6) == os
  {
    var v := FromOctets(os);
    FromOctetsBound(os);
    DivModUnique(v, Pow2(48), 0, v);
    FromBigEndian(v, 6);
    FromOctetsInjective(BigEndian(v, 6), os);
  }

  /** Two lower-case hex digits are the `{:02x}` rendering of their value. */
  lemma Hex2OfDigits(hi: char, lo: char)
    requires IsHexDigit(hi) && IsHexDigit(lo)
    ensures Hex2(HexValue(hi) * 16 + HexValue(lo)) == [hi, lo]
  {
    var b := HexValue(hi) * 16 + HexValue(lo);
    assert b / 16 == HexValue(hi) && b % 16 == HexValue(lo);
  }

  /** Octet `5 - j` of the number six octets spell is octet `j` of them. */
  lemma DecodedOctet(os: seq<nat>, j: nat)
    requires |os| == 6 && AreOctets(os) && j < 6
    ensures Octet(FromOctets(os), 40 - 8 * j) == os[j]
  {
    var v := FromOctets(os);
    assert BigEndian(v, 6)[j] == Octet(v, 40 - 8 * j) by {
      assert 8 * (6 - 1 - j) == 40 - 8 * j;
    }
    OctetsRoundTrip(os);
  }

  /** Group `j` of the rendering of a decoded string is group `j` of the
      string. */
  lemma CanonicalGroup(s: string, j: nat)
    requires IsMacShaped(s) && j < 6
    ensures var m := MacAddress(FromOctets(ParsedOctets(s)));
      m[3 * j] == s[3 * j] && m[3 * j + 1] == s[3 * j + 1]
  {
    var os := ParsedOctets(s);
    var v := FromOctets(os);
    assert Hex2(os[j]) == [s[3 * j], s[3 * j + 1]] by {
      assert (3 * j) % 3 != 2 && (3 * j + 1) % 3 != 2;
      Hex2OfDigits(s[3 * j], s[3 * j + 1]);
    }
    DecodedOctet(os, j);
    MacGroup(v, j);
  }

  /** Every string the decoder accepts is the rendering of what it decodes
      to: the rendering is the one canonical spelling. */
  lemma MacCanonical(s: string)
    requires ParseMac(s).Some?
    ensures MacAddress(ParseMac(s).value) == s
  {
    var m := MacAddress(FromOctets(ParsedOctets(s)));
    forall k | 0 <= k < 17 ensures m[k] == s[k] {
      if k % 3 != 2 {
        CanonicalGroup(s, k / 3);
        assert k == 3 * (k / 3) || k == 3 * (k / 3) + 1;
      }
    }
  }

  /** Only the low 48 bits of the node identifier reach the string. */
  lemma MacLow48(node: int)
    ensures MacAddress(node) == MacAddress(node % Pow2(48))
  {
    MacRoundTrip(node);
    MacCanonical(MacAddress(node));
  }

  // ---------------------------------------------------------------------
  // Collection.

  /** The outcome of one operating-system probe: its value, or the message
      of the exception it raised. */
  datatype Probe<T> = Read(value: T) | Raised(message: string)

  /** Everything the collector asks the operating system, in the order it
      asks. The node identifier and the clock cannot fail. */
  datatype Probes = Probes(
    hostname: Probe<string>,
    ipAddress: Probe<string>,
    node: int,
    osInfo: Probe<Dict>,
    memoryInfo: Probe<Dict>,
    diskInfo: Probe<Dict>,
    cpuInfo: Probe<Dict>,
    clock: string)

  /** The messages of the probes that raised, in collection order. */
  function Failures(p: Probes): (r: seq<string>)
    ensures |r| <= 6
    ensures r == [] <==>
              (&& p.hostname.Read? && p.ipAddress.Read? && p.osInfo.Read?
               && p.memoryInfo.Read? && p.diskInfo.Read? && p.cpuInfo.Read?)
  {
    (if p.hostname.Raised? then [p.hostname.message] else [])
    + (if p.ipAddress.Raised? then [p.ipAddress.message] else [])
    + (if p.osInfo.Raised? then [p.osInfo.message] else [])
    + (if p.memoryInfo.Raised? then [p.memoryInfo.message] else [])
    + (if p.diskInfo.Raised? then [p.diskInfo.message] else [])
    + (if p.cpuInfo.Raised? then [p.cpuInfo.message] else [])
  }

  function ErrorObject(message: string): (r: Dict)
    ensures r.Keys == {"error"} && r["error"] == Str(message)
    ensures r.Keys !! FieldNames
  {
    map["error" := Str(message)]
  }

  /** `get_system_info`: the snapshot as a JSON object, or, when a probe
      raises, an object whose only key is `error`, carrying the first
      exception's message. */
  function CollectSystemInfo(p: Probes): (r: Dict)
    ensures "error" in r <==> Failures(p) != []
    ensures Failures(p) != [] ==> r.Keys == {"error"} && r["error"] == Str(Failures(p)[0])
    ensures Failures(p) == [] ==>
              (&& r.Keys == FieldNames
               && r["hostname"] == Str(p.hostname.value)
               && r["mac_address"] == Str(MacAddress(p.node)))
  {
    if p.hostname.Raised? then ErrorObject(p.hostname.message)
    else if p.ipAddress.Raised? then ErrorObject(p.ipAddress.message)
    else if p.osInfo.Raised? then ErrorObject(p.osInfo.message)
    else if p.memoryInfo.Raised? then ErrorObject(p.memoryInfo.message)
    else if p.diskInfo.Raised? then ErrorObject(p.diskInfo.message)
    else if p.cpuInfo.Raised? then ErrorObject(p.cpuInfo.message)
    else ToJson(SystemInfo(
      p.clock,
      p.hostname.value,
      p.ipAddress.value,
      MacAddress(p.node),
      p.osInfo.value,
      p.memoryInfo.value,
      p.diskInfo.value,
      p.cpuInfo.value))
  }

  // ---------------------------------------------------------------------
  // Sending.

  /** A JSON POST as the client issues it. */
  datatype Request = Request(url: string, contentType: string, body: Dict)

  /** What the transport returned: a response with its status and text, or
      the message of the exception it raised. */
  datatype Transport = Responded(status: int, text: string) | Failed(message: string)

  /** The outcome of `send_system_info`: the request it posted and the value
      it returned. */
  datatype Sent = Sent(request: Request, ok: bool)

  /** `f"{server_url}/api/system-info"` */
  function PostTarget(serverUrl: string): (url: string)
    ensures serverUrl <= url && url[|serverUrl|..] == "/api/system-info"
  {
    serverUrl + "/api/system-info"
  }

  /** `send_system_info`: post whatever the collector produced, error object
      included, and report success exactly on status 200. */
  function SendSystemInfo(serverUrl: string, p: Probes, reply: Transport): (r: Sent)
    ensures r.request.url == PostTarget(serverUrl) && r.request.contentType == "application/json"
    ensures r.request.body == CollectSystemInfo(p)
    ensures r.ok <==> reply.Responded? && reply.status == 200
  {
    var request := Request(PostTarget(serverUrl), "application/json", CollectSystemInfo(p));
    match reply
    case Responded(status, _) => Sent(request, status == 200)
    case Failed(_) => Sent(request, false)
  }

  /** A failed collection is still posted, as a body that carries none of
      the snapshot's fields. */
  lemma FailedCollectionPostsNoFields(serverUrl: string, p: Probes, reply: Transport)
    requires Failures(p) != []
    ensures SendSystemInfo(serverUrl, p, reply).request.body.Keys !! FieldNames
  {
  }
}
