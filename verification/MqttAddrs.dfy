/** Normalising MQTT broker addresses to scheme://host:port, with the string functions it uses. */
module MqttAddrs {

  // ---------------------------------------------------------------------------
  // Searching and splitting
  // ---------------------------------------------------------------------------

  predicate HasAt(s: string, sep: string, i: nat) {
    i + |sep| <= |s| && s[i..i + |sep|] == sep
  }

  /** The first occurrence of `sep`, or -1. */
  function Index(s: string, sep: string): (i: int)
    ensures i == -1 || 0 <= i <= |s| - |sep|
  {
    if HasAt(s, sep, 0) then 0
    else if s == [] then -1
    else
      var i := Index(s[1..], sep);
      if i < 0 then -1 else i + 1
  }

  function Split(s: string, sep: string): (parts: seq<string>)
    requires sep != []
    ensures |parts| > 0
    decreases |s|
  {
    var i := Index(s, sep);
    if i < 0 then [s] else [s[..i]] + Split(s[i + |sep|..], sep)
  }

  // ---------------------------------------------------------------------------
  // Decimal numbers
  // ---------------------------------------------------------------------------

  const MAX_UINT := 0xFFFF_FFFF_FFFF_FFFF
  const MAX_INT := 0x7FFF_FFFF_FFFF_FFFF
  const MIN_INT := -0x8000_0000_0000_0000

  predicate IsInt64(n: int) {
    MIN_INT <= n <= MAX_INT
  }

  predicate IsDigit(c: char) {
    '0' <= c <= '9'
  }

  function DigitChar(d: nat): (c: char)
    requires d < 10
    ensures IsDigit(c) && c as int - '0' as int == d
  {
    ('0' as int + d) as char
  }

  datatype Magnitude = Bad | Good(value: nat)

  /** Digits to an unsigned 64-bit number: a value out of range stops the scan at once, before any
      bad character behind it is seen. */
  function Accumulate(s: string, n: nat): (m: Magnitude)
    requires n <= MAX_UINT
    ensures m.Good? ==> m.value <= MAX_UINT
    decreases |s|
  {
    if s == [] then Good(n)
    else if !IsDigit(s[0]) then Bad
    else
      var n' := 10 * n + (s[0] as int - '0' as int);
      if n' > MAX_UINT then Good(MAX_UINT) else Accumulate(s[1..], n')
  }

  /** The number `strconv.Atoi` returns, whatever error comes with it: zero for bad syntax, the nearest
      bound for a value out of range. */
  function Atoi(s: string): (n: int)
    ensures IsInt64(n)
  {
    if s == [] then 0
    else
      var digits := if s[0] == '-' || s[0] == '+' then s[1..] else s;
      if digits == [] then 0
      else
        match Accumulate(digits, 0)
        case Bad => 0
        case Good(m) =>
          if s[0] == '-' then (if m > -MIN_INT then MIN_INT else 0 - m as int)
          else if m > MAX_INT then MAX_INT
          else m
  }

  function Digits(n: nat): (s: string)
    ensures s != [] && forall i :: 0 <= i < |s| ==> IsDigit(s[i])
  {
    if n < 10 then [DigitChar(n)] else Digits(n / 10) + [DigitChar(n % 10)]
  }

  function Itoa(n: int): (s: string)
    ensures s != [] && ':' !in s && s[0] != '/'
  {
    if n < 0 then "-" + Digits(-n) else Digits(n)
  }

  lemma {:induction false} DigitsAccumulate(n: nat, rest: string)
    requires n <= MAX_UINT
    ensures Accumulate(Digits(n) + rest, 0) == Accumulate(rest, n)
  {
    if n < 10 {
      assert (Digits(n) + rest)[1..] == rest;
    } else {
      var last := [DigitChar(n % 10)] + rest;
      assert Digits(n) + rest == Digits(n / 10) + last;
      DigitsAccumulate(n / 10, last);
      assert last[1..] == rest;
    }
  }

  lemma NumberRoundTrip(n: int)
    requires IsInt64(n)
    ensures Atoi(Itoa(n)) == n
  {
    var m := if n < 0 then -n else n;
    DigitsAccumulate(m, []);
    assert Digits(m) + [] == Digits(m);
    if n < 0 {
      assert Itoa(n)[1..] == Digits(m);
    }
  }

  ghost predicate AllDigits(s: string) {
    forall i :: 0 <= i < |s| ==> IsDigit(s[i])
  }

  /** The number that digits stand for, however many they are. */
  ghost function NumberOf(s: string): nat
    requires AllDigits(s)
  {
    if s == [] then 0 else 10 * NumberOf(s[..|s| - 1]) + (s[|s| - 1] as int - '0' as int)
  }

  lemma {:induction false} PrefixAccumulates(pre: string, rest: string)
    requires AllDigits(pre) && NumberOf(pre) <= MAX_UINT
    ensures Accumulate(pre + rest, 0) == Accumulate(rest, NumberOf(pre))
  {
    if pre == [] {
      assert pre + rest == rest;
    } else {
      var init, last := pre[..|pre| - 1], [pre[|pre| - 1]];
      assert pre + rest == init + (last + rest);
      PrefixAccumulates(init, last + rest);
      assert (last + rest)[1..] == rest;
    }
  }

  /** Digits, and then nothing or something else. */
  lemma {:induction false} AccumulateIs(digits: string, rest: string)
    requires AllDigits(digits) && (rest == [] || !IsDigit(rest[0]))
    ensures Accumulate(digits + rest, 0) == if NumberOf(digits) > MAX_UINT then Good(MAX_UINT)
                                            else if rest == [] then Good(NumberOf(digits)) else Bad
  {
    if NumberOf(digits) <= MAX_UINT {
      PrefixAccumulates(digits, rest);
    } else {
      Overflows(digits, rest);
    }
  }

  lemma {:induction false} Overflows(digits: string, rest: string)
    requires AllDigits(digits) && NumberOf(digits) > MAX_UINT
    ensures Accumulate(digits + rest, 0) == Good(MAX_UINT)
  {
    var init, last := digits[..|digits| - 1], [digits[|digits| - 1]];
    assert digits + rest == init + (last + rest);
    if NumberOf(init) <= MAX_UINT {
      PrefixAccumulates(init, last + rest);
    } else {
      Overflows(init, last + rest);
    }
  }

  ghost function Clamp(n: int): int {
    if n < MIN_INT then MIN_INT else if n > MAX_INT then MAX_INT else n
  }

  /** A signed number is read as the nearest 64-bit one. Anything else is read as zero, unless its digits
      leave 64 bits before they end. */
  lemma AtoiIs(sign: string, digits: string, rest: string)
    requires sign in ["", "+", "-"] && AllDigits(digits) && (rest == [] || !IsDigit(rest[0]))
    requires sign == "" && digits == [] && rest != [] ==> rest[0] != '+' && rest[0] != '-'
    ensures var n: int := NumberOf(digits);
            Atoi(sign + digits + rest) == if n > MAX_UINT || (digits != [] && rest == [])
                                          then Clamp(if sign == "-" then -n else n) else 0
  {
    var s := sign + digits + rest;
    AccumulateIs(digits, rest);
    if sign == "" {
      assert s == digits + rest;
    } else {
      assert s[0] == sign[0] && s[1..] == digits + rest;
    }
  }

  // ---------------------------------------------------------------------------
  // Addresses
  // ---------------------------------------------------------------------------

  datatype Address = Address(scheme: string, host: string, port: int)
  {
    ghost predicate Proper() {
      KnownScheme(scheme) && ':' !in host && IsInt64(port)
    }

    function Show(): string {
      scheme + "://" + host + ":" + Itoa(port)
    }
  }

  datatype Parsed = Skipped | Parsed(address: Address)

  predicate KnownScheme(s: string) {
    s == "tcp" || s == "ssl" || s == "ws"
  }

  function DefaultPort(scheme: string): int {
    if scheme == "ssl" then 8883 else if scheme == "ws" then 80 else 1883
  }

  function ParseHostPort(scheme: string, rest: string): Parsed {
    var parts := Split(rest, ":");
    if !KnownScheme(scheme) then Skipped
    else Parsed(Address(scheme, parts[0], if |parts| < 2 then DefaultPort(scheme) else Atoi(parts[1])))
  }

  function ParseAddress(addr: string): Parsed {
    if addr == [] then Skipped
    else
      var parts := Split(addr, "://");
      if |parts| < 2 then ParseHostPort("tcp", parts[0]) else ParseHostPort(parts[0], parts[1])
  }

  /** What one address contributes to the result. */
  function Entry(addr: string): seq<string> {
    match ParseAddress(addr)
    case Skipped => []
    case Parsed(a) => [a.Show()]
  }

  /** The contributions of a list of addresses, one after the other. */
  function Collect(entry: string -> seq<string>, addrs: seq<string>): seq<string> {
    if addrs == [] then [] else Collect(entry, addrs[..|addrs| - 1]) + entry(addrs[|addrs| - 1])
  }

  function Accepted(addrs: seq<string>): seq<string> {
    Collect(Entry, addrs)
  }

  const FALLBACK: seq<string> := ["tcp://127.0.0.1:1883"]

  function Normalised(addrs: seq<string>): seq<string> {
    if Accepted(addrs) == [] then FALLBACK else Accepted(addrs)
  }

  // What an address means, as a relation on strings

  ghost predicate Absent(s: string, sep: string) {
    forall i :: 0 <= i < |s| ==> !HasAt(s, sep, i)
  }

  /** The string cut at the first separator. */
  ghost predicate Cut(s: string, sep: string, pre: string, post: string) {
    s == pre + sep + post && forall i :: 0 <= i < |pre| ==> !HasAt(s, sep, i)
  }

  /** The string up to the first separator, if there is one. */
  ghost predicate UpTo(s: string, sep: string, head: string) {
    if Absent(s, sep) then head == s else exists post :: Cut(s, sep, head, post)
  }

  /** The scheme of an address, which is tcp without one, and what comes after it. */
  ghost predicate Under(addr: string, scheme: string, rest: string) {
    if Absent(addr, "://") then scheme == "tcp" && rest == addr
    else exists post :: Cut(addr, "://", scheme, post) && UpTo(post, "://", rest)
  }

  /** The host, and the port that is given or goes with the scheme. */
  ghost predicate Located(scheme: string, rest: string, host: string, port: int) {
    if Absent(rest, ":") then host == rest && (scheme, port) in [("tcp", 1883), ("ssl", 8883), ("ws", 80)]
    else exists post, number :: Cut(rest, ":", host, post) && UpTo(post, ":", number) && port == Atoi(number)
  }

  /** What one address contributes to the result. */
  ghost predicate Yields(addr: string, out: seq<string>) {
    if addr == "" then out == []
    else exists scheme, rest :: Under(addr, scheme, rest) && Shown(scheme, rest, out)
  }

  ghost predicate Shown(scheme: string, rest: string, out: seq<string>) {
    if scheme !in ["tcp", "ssl", "ws"] then out == []
    else exists host, port ::
           Located(scheme, rest, host, port) && out == [scheme + "://" + host + ":" + Itoa(port)]
  }

  ghost predicate Answers(addrs: seq<string>, outs: seq<seq<string>>) {
    |outs| == |addrs| && forall i :: 0 <= i < |addrs| ==> Yields(addrs[i], outs[i])
  }

  ghost function Flatten(outs: seq<seq<string>>): seq<string> {
    if outs == [] then [] else Flatten(outs[..|outs| - 1]) + outs[|outs| - 1]
  }

  lemma {:induction false} IndexIs(s: string, sep: string)
    requires sep != []
    ensures var i := Index(s, sep);
            if i < 0 then Absent(s, sep) else HasAt(s, sep, i) && forall j :: 0 <= j < i ==> !HasAt(s, sep, j)
  {
    if s != [] && !HasAt(s, sep, 0) {
      var t := s[1..];
      IndexIs(t, sep);
      forall j | 0 < j <= |t| ensures HasAt(s, sep, j) <==> HasAt(t, sep, j - 1) {
        if j + |sep| <= |s| {
          assert s[j..j + |sep|] == t[j - 1..j - 1 + |sep|];
        }
      }
    }
  }

  lemma CutIs(s: string, sep: string) returns (post: string)
    requires sep != [] && !Absent(s, sep)
    ensures Index(s, sep) >= 0 && Cut(s, sep, s[..Index(s, sep)], post) && post == s[Index(s, sep) + |sep|..]
  {
    IndexIs(s, sep);
    var i := Index(s, sep);
    post := s[i + |sep|..];
    assert s == s[..i] + s[i..i + |sep|] + post;
  }

  /** There is only one first separator. */
  lemma CutUnique(s: string, sep: string, pre: string, post: string)
    requires sep != [] && Cut(s, sep, pre, post)
    ensures !Absent(s, sep) && Index(s, sep) == |pre| && pre == s[..|pre|] && post == s[|pre| + |sep|..]
  {
    assert s[|pre|..|pre| + |sep|] == sep;
    assert HasAt(s, sep, |pre|);
    IndexIs(s, sep);
  }

  lemma UpToIs(s: string, sep: string, head: string)
    requires sep != []
    ensures UpTo(s, sep, head) <==> head == Split(s, sep)[0]
    ensures Absent(s, sep) <==> Index(s, sep) < 0
  {
    IndexIs(s, sep);
    if !Absent(s, sep) {
      var post := CutIs(s, sep);
      forall q | Cut(s, sep, head, q) ensures head == s[..Index(s, sep)] {
        CutUnique(s, sep, head, q);
      }
    }
  }

  lemma UnderIs(addr: string, scheme: string, rest: string)
    ensures var parts := Split(addr, "://");
            Under(addr, scheme, rest) <==>
            if |parts| < 2 then scheme == "tcp" && rest == parts[0] else scheme == parts[0] && rest == parts[1]
  {
    UpToIs(addr, "://", scheme);
    if !Absent(addr, "://") {
      var post := CutIs(addr, "://");
      UpToIs(post, "://", rest);
      assert Split(addr, "://")[1..] == Split(post, "://");
      forall q | Cut(addr, "://", scheme, q) ensures q == post && scheme == Split(addr, "://")[0] {
        CutUnique(addr, "://", scheme, q);
      }
    }
  }

  /** The port of a split host and port. */
  ghost function PortIn(scheme: string, parts: seq<string>): int
    requires |parts| > 0
  {
    if |parts| < 2 then DefaultPort(scheme) else Atoi(parts[1])
  }

  lemma LocatedIs(scheme: string, rest: string, host: string, port: int)
    requires KnownScheme(scheme)
    ensures var parts := Split(rest, ":");
            Located(scheme, rest, host, port) <==> host == parts[0] && port == PortIn(scheme, parts)
  {
    UpToIs(rest, ":", host);
    if !Absent(rest, ":") {
      var post := CutIs(rest, ":");
      var number := Split(post, ":")[0];
      UpToIs(post, ":", number);
      assert Split(rest, ":")[1..] == Split(post, ":");
      if host == Split(rest, ":")[0] && port == Atoi(number) {
        assert Cut(rest, ":", host, post);
      }
      forall q, n | Cut(rest, ":", host, q) && UpTo(q, ":", n) ensures host == Split(rest, ":")[0] && n == number {
        CutUnique(rest, ":", host, q);
        UpToIs(q, ":", n);
      }
    }
  }

  lemma ShownKnown(scheme: string, rest: string, host: string, port: int, out: seq<string>)
    requires scheme in ["tcp", "ssl", "ws"]
    requires forall x, y :: Located(scheme, rest, x, y) <==> x == host && y == port
    ensures Shown(scheme, rest, out) <==> out == [scheme + "://" + host + ":" + Itoa(port)]
  {
    assert Located(scheme, rest, host, port);
  }

  lemma ShownIs(scheme: string, rest: string, out: seq<string>)
    ensures Shown(scheme, rest, out) <==>
            match ParseHostPort(scheme, rest) case Skipped => out == [] case Parsed(a) => out == [a.Show()]
  {
    if KnownScheme(scheme) {
      var host, port := Split(rest, ":")[0], PortIn(scheme, Split(rest, ":"));
      forall x, y ensures Located(scheme, rest, x, y) <==> x == host && y == port {
        LocatedIs(scheme, rest, x, y);
      }
      ShownKnown(scheme, rest, host, port, out);
      assert ParseHostPort(scheme, rest) == Parsed(Address(scheme, host, port));
    }
  }

  /** The parser computes the meaning, and an address has only one. */
  lemma YieldsIff(addr: string, out: seq<string>)
    ensures Yields(addr, out) <==> out == Entry(addr)
  {
    if addr != "" {
      var parts := Split(addr, "://");
      var scheme, rest := if |parts| < 2 then "tcp" else parts[0], if |parts| < 2 then parts[0] else parts[1];
      forall x, y ensures Under(addr, x, y) <==> x == scheme && y == rest {
        UnderIs(addr, x, y);
      }
      ShownIs(scheme, rest, out);
    }
  }

  lemma {:induction false} AnswersAccepted(addrs: seq<string>, outs: seq<seq<string>>)
    requires Answers(addrs, outs)
    ensures Flatten(outs) == Accepted(addrs)
    decreases |addrs|
  {
    if addrs != [] {
      var n := |addrs| - 1;
      AnswersAccepted(addrs[..n], outs[..n]);
      YieldsIff(addrs[n], outs[n]);
    }
  }

  /** The answers to a list of addresses make up the result. */
  lemma NormalisedIs(addrs: seq<string>, outs: seq<seq<string>>)
    requires Answers(addrs, outs)
    ensures Normalised(addrs) == if Flatten(outs) == [] then ["tcp://127.0.0.1:1883"] else Flatten(outs)
  {
    AnswersAccepted(addrs, outs);
  }

  /** Every list has its answers. */
  lemma Answered(addrs: seq<string>) returns (outs: seq<seq<string>>)
    ensures Answers(addrs, outs)
  {
    outs := seq(|addrs|, i requires 0 <= i < |addrs| => Entry(addrs[i]));
    forall i | 0 <= i < |addrs| ensures Yields(addrs[i], outs[i]) {
      YieldsIff(addrs[i], outs[i]);
    }
  }

  method SetAddrs(addrs: seq<string>) returns (cAddrs: seq<string>)
    ensures cAddrs == Normalised(addrs)
    ensures forall outs :: Answers(addrs, outs) ==>
              cAddrs == if Flatten(outs) == [] then ["tcp://127.0.0.1:1883"] else Flatten(outs)
  {
    forall outs | Answers(addrs, outs)
      ensures Normalised(addrs) == if Flatten(outs) == [] then ["tcp://127.0.0.1:1883"] else Flatten(outs)
    {
      NormalisedIs(addrs, outs);
    }
    cAddrs := [];
    for i := 0 to |addrs|
      invariant cAddrs == Accepted(addrs[..i])
    {
      var addr := addrs[i];
      assert addrs[..i + 1][..i] == addrs[..i];
      if |addr| == 0 {
        continue;
      }
      var scheme, host, port;
      var parts := Split(addr, "://");
      if |parts| < 2 {
        scheme := "tcp";
        parts := Split(parts[0], ":");
      } else {
        scheme := parts[0];
        parts := Split(parts[1], ":");
      }
      if scheme != "tcp" && scheme != "ssl" && scheme != "ws" {
        continue;
      }
      if |parts| < 2 {
        host := parts[0];
        if scheme == "tcp" {
          port := 1883;
        } else if scheme == "ssl" {
          port := 8883;
        } else if scheme == "ws" {
          port := 80;
        } else {
          port := 1883;
        }
      } else {
        host := parts[0];
        port := Atoi(parts[1]);
      }
      cAddrs := cAddrs + [scheme + "://" + host + ":" + Itoa(port)];
    }
    assert addrs[..|addrs|] == addrs;
    if |cAddrs| == 0 {
      cAddrs := FALLBACK;
    }
  }

  // ---------------------------------------------------------------------------
  // Showing and parsing
  // ---------------------------------------------------------------------------

  /** A separator starting with a colon is found right after a colon-free prefix. */
  lemma {:induction false} IndexAfter(pre: string, sep: string, rest: string)
    requires sep != [] && sep[0] == ':' && ':' !in pre
    ensures Index(pre + sep + rest, sep) == |pre|
  {
    var s := pre + sep + rest;
    if pre == [] {
      assert s[0..|sep|] == sep;
    } else {
      assert s[0] == pre[0];
      assert !HasAt(s, sep, 0);
      assert s[1..] == pre[1..] + sep + rest;
      IndexAfter(pre[1..], sep, rest);
    }
  }

  lemma {:induction false} IndexNone(s: string, sep: string)
    requires sep != [] && forall i :: 0 <= i < |s| ==> !HasAt(s, sep, i)
    ensures Index(s, sep) == -1
  {
    if s != [] {
      assert !HasAt(s, sep, 0);
      forall i | 0 <= i < |s[1..]| ensures !HasAt(s[1..], sep, i) {
        assert !HasAt(s, sep, i + 1);
        if i + |sep| <= |s[1..]| {
          assert s[1..][i..i + |sep|] == s[i + 1..i + 1 + |sep|];
        }
      }
      IndexNone(s[1..], sep);
    }
  }

  lemma SplitWhole(s: string, sep: string)
    requires sep != [] && sep[0] == ':' && forall i :: 0 <= i < |s| && s[i] == ':' ==> !HasAt(s, sep, i)
    ensures Split(s, sep) == [s]
  {
    forall i | 0 <= i < |s| ensures !HasAt(s, sep, i) {
      if i + |sep| <= |s| {
        assert s[i..i + |sep|][0] == s[i];
      }
    }
    IndexNone(s, sep);
  }

  lemma SplitTwo(pre: string, sep: string, rest: string)
    requires sep != [] && sep[0] == ':' && ':' !in pre && Split(rest, sep) == [rest]
    ensures Split(pre + sep + rest, sep) == [pre, rest]
  {
    var s := pre + sep + rest;
    IndexAfter(pre, sep, rest);
    assert s[..|pre|] == pre;
    assert s[|pre| + |sep|..] == rest;
  }

  /** Host and port, separated by the only colon. */
  lemma HostPortSplits(host: string, port: string)
    requires ':' !in host && ':' !in port && port != [] && port[0] != '/'
    ensures Split(host + ":" + port, ":") == [host, port]
    ensures Split(host + ":" + port, "://") == [host + ":" + port]
  {
    SplitWhole(port, ":");
    SplitTwo(host, ":", port);
    var s := host + ":" + port;
    forall i | 0 <= i < |s| && s[i] == ':' ensures !HasAt(s, "://", i) {
      assert i == |host|;
      assert s[i + 1] == port[0];
      if i + 3 <= |s| {
        assert s[i..i + 3][1] == port[0];
      }
    }
    SplitWhole(s, "://");
  }

  /** Parsing what was shown gives the address back. */
  lemma ShowParses(a: Address)
    requires a.Proper()
    ensures ParseAddress(a.Show()) == Parsed(a)
  {
    var rest := a.host + ":" + Itoa(a.port);
    HostPortSplits(a.host, Itoa(a.port));
    assert a.Show() == a.scheme + "://" + rest;
    SplitTwo(a.scheme, "://", rest);
    assert ParseHostPort(a.scheme, rest) == Parsed(a) by { NumberRoundTrip(a.port); }
  }

  lemma {:induction false} FirstPartClean(s: string)
    ensures ':' !in Split(s, ":")[0]
  {
    var i := Index(s, ":");
    IndexClean(s);
  }

  lemma {:induction false} IndexClean(s: string)
    ensures var i := Index(s, ":"); ':' !in s[..if i < 0 then |s| else i]
  {
    if s != [] && !HasAt(s, ":", 0) {
      IndexClean(s[1..]);
      assert s[0..1] == [s[0]];
      assert s[0] != ':';
      var i := Index(s[1..], ":");
      var k := if i < 0 then |s| - 1 else i;
      assert s[..k + 1] == [s[0]] + s[1..][..k];
    }
  }

  /** Whatever is accepted is a proper address. */
  lemma ParsedIsProper(addr: string)
    ensures ParseAddress(addr).Parsed? ==> ParseAddress(addr).address.Proper()
  {
    if addr != [] {
      var parts := Split(addr, "://");
      FirstPartClean(if |parts| < 2 then parts[0] else parts[1]);
    }
  }

  // ---------------------------------------------------------------------------
  // Idempotence
  // ---------------------------------------------------------------------------

  /** The addresses that normalisation leaves alone. */
  ghost predicate Canonical(addr: string) {
    exists a: Address :: a.Proper() && addr == a.Show()
  }

  lemma EntryCanonical(addr: string)
    ensures forall i :: 0 <= i < |Entry(addr)| ==> Canonical(Entry(addr)[i])
  {
    ParsedIsProper(addr);
    var p := ParseAddress(addr);
    if p.Parsed? {
      assert Canonical(p.address.Show());
    }
  }

  lemma {:induction false} CollectAll(entry: string -> seq<string>, good: string -> bool, addrs: seq<string>)
    requires forall a, i :: 0 <= i < |entry(a)| ==> good(entry(a)[i])
    ensures forall i :: 0 <= i < |Collect(entry, addrs)| ==> good(Collect(entry, addrs)[i])
  {
    if addrs != [] {
      CollectAll(entry, good, addrs[..|addrs| - 1]);
    }
  }

  lemma AcceptedCanonical(addrs: seq<string>)
    ensures forall i :: 0 <= i < |Accepted(addrs)| ==> Canonical(Accepted(addrs)[i])
  {
    forall a, i | 0 <= i < |Entry(a)| ensures Canonical(Entry(a)[i]) {
      EntryCanonical(a);
    }
    CollectAll(Entry, Canonical, addrs);
  }

  lemma FallbackPort()
    ensures Itoa(1883) == "1883"
  {
    assert Digits(1) == "1";
    assert Digits(18) == "18";
    assert Digits(188) == "188";
  }

  lemma FallbackCanonical()
    ensures Canonical(FALLBACK[0])
  {
    var a := Address("tcp", "127.0.0.1", 1883);
    FallbackPort();
    assert "tcp" + "://" + "127.0.0.1" + ":" + "1883" == FALLBACK[0];
    assert a.Proper() && FALLBACK[0] == a.Show();
  }

  lemma CanonicalParses(addr: string)
    requires Canonical(addr)
    ensures Entry(addr) == [addr]
  {
    var a: Address :| a.Proper() && addr == a.Show();
    ShowParses(a);
  }

  lemma {:induction false} CollectFixed(entry: string -> seq<string>, addrs: seq<string>)
    requires forall a :: a in addrs ==> entry(a) == [a]
    ensures Collect(entry, addrs) == addrs
  {
    if addrs != [] {
      var init, last := addrs[..|addrs| - 1], addrs[|addrs| - 1];
      assert last in addrs;
      assert init + [last] == addrs;
      CollectFixed(entry, init);
    }
  }

  lemma CanonicalAccepted(addrs: seq<string>)
    requires forall i :: 0 <= i < |addrs| ==> Canonical(addrs[i])
    ensures Accepted(addrs) == addrs
  {
    forall a | a in addrs ensures Entry(a) == [a] {
      CanonicalParses(a);
    }
    CollectFixed(Entry, addrs);
  }

  /** Every result is a non-empty list of scheme://host:port with a known scheme, a host without a
      colon and a 64-bit port. */
  lemma NormalisedCanonical(addrs: seq<string>)
    ensures Normalised(addrs) != []
    ensures forall i :: 0 <= i < |Normalised(addrs)| ==> Canonical(Normalised(addrs)[i])
  {
    AcceptedCanonical(addrs);
    FallbackCanonical();
  }

  /** Normalising twice is normalising once, and the lists it leaves alone are exactly the non-empty
      lists of canonical addresses. */
  lemma Idempotent(addrs: seq<string>)
    ensures Normalised(Normalised(addrs)) == Normalised(addrs)
    ensures Normalised(addrs) == addrs <==> addrs != [] && forall i :: 0 <= i < |addrs| ==> Canonical(addrs[i])
  {
    NormalisedCanonical(addrs);
    CanonicalAccepted(Normalised(addrs));
    if addrs != [] && forall i :: 0 <= i < |addrs| ==> Canonical(addrs[i]) {
      CanonicalAccepted(addrs);
    }
  }

  // ---------------------------------------------------------------------------
  // Addresses that are not canonical
  // ---------------------------------------------------------------------------

  lemma PortNumbers()
    ensures Itoa(1883) == "1883" && Itoa(8883) == "8883" && Itoa(80) == "80"
  {
    FallbackPort();
    assert Digits(8) == "8" && Digits(88) == "88" && Digits(888) == "888" && Digits(8883) == "8883";
    assert Digits(80) == "80";
  }

  lemma OneAddress(addr: string, out: string)
    requires Yields(addr, [out])
    ensures Normalised([addr]) == [out]
  {
    assert [[out]][..0] == [];
    assert Flatten([[out]]) == [out];
    NormalisedIs([addr], [[out]]);
  }

  lemma NoColon(s: string, sep: string)
    requires ':' !in s && sep != [] && sep[0] == ':'
    ensures Absent(s, sep)
  {
    forall i | 0 <= i < |s| ensures !HasAt(s, sep, i) {
      if i + |sep| <= |s| {
        assert s[i..i + |sep|][0] == s[i];
      }
    }
  }

  /** A separator after a prefix without a colon. */
  lemma CutAt(pre: string, sep: string, post: string)
    requires ':' !in pre && sep != [] && sep[0] == ':'
    ensures Cut(pre + sep + post, sep, pre, post) && !Absent(pre + sep + post, sep)
  {
    var s := pre + sep + post;
    forall i | 0 <= i < |pre| ensures !HasAt(s, sep, i) {
      if i + |sep| <= |s| {
        assert s[i..i + |sep|][0] == pre[i];
      }
    }
    CutUnique(s, sep, pre, post);
  }

  lemma SchemeAndHost(scheme: string, host: string, port: int)
    requires (scheme, port) in [("tcp", 1883), ("ssl", 8883), ("ws", 80)] && ':' !in host
    ensures Normalised([scheme + "://" + host]) == [scheme + "://" + host + ":" + Itoa(port)]
  {
    CutAt(scheme, "://", host);
    NoColon(host, "://");
    NoColon(host, ":");
    assert Under(scheme + "://" + host, scheme, host) && Located(scheme, host, host, port);
    OneAddress(scheme + "://" + host, scheme + "://" + host + ":" + Itoa(port));
  }

  /** The same with its punctuation joined to the words. */
  lemma Joined(scheme: string, prefix: string, host: string, port: string, suffix: string)
    requires prefix == scheme + "://" && suffix == ":" + port
    ensures scheme + "://" + host + ":" + port == prefix + host + suffix
  {
  }

  lemma DefaultPortOf(scheme: string, prefix: string, host: string, port: int, suffix: string)
    requires (scheme, port) in [("tcp", 1883), ("ssl", 8883), ("ws", 80)] && ':' !in host
    requires prefix == scheme + "://" && suffix == ":" + Itoa(port)
    ensures Normalised([prefix + host]) == [prefix + host + suffix]
  {
    SchemeAndHost(scheme, host, port);
    Joined(scheme, prefix, host, Itoa(port), suffix);
  }

  /** Without a port, the port is that of the scheme. */
  lemma DefaultPorts(host: string)
    requires ':' !in host
    ensures Normalised(["tcp://" + host]) == ["tcp://" + host + ":1883"]
    ensures Normalised(["ssl://" + host]) == ["ssl://" + host + ":8883"]
    ensures Normalised(["ws://" + host]) == ["ws://" + host + ":80"]
  {
    PortNumbers();
    DefaultPortOf("tcp", "tcp://", host, 1883, ":1883");
    DefaultPortOf("ssl", "ssl://", host, 8883, ":8883");
    DefaultPortOf("ws", "ws://", host, 80, ":80");
  }

  /** Without a scheme the scheme is tcp, with or without a port. */
  lemma PlainHost(host: string, port: int)
    requires ':' !in host && IsInt64(port)
    ensures host != [] ==> Normalised([host]) == ["tcp://" + host + ":1883"]
    ensures Normalised([host + ":" + Itoa(port)]) == ["tcp://" + host + ":" + Itoa(port)]
  {
    if host != [] {
      HostAlone(host);
    }
    HostAndPort(host, port);
  }

  lemma SchemeLess(addr: string, host: string, port: int)
    requires addr != "" && Absent(addr, "://") && Located("tcp", addr, host, port)
    ensures Normalised([addr]) == ["tcp://" + host + ":" + Itoa(port)]
  {
    assert Under(addr, "tcp", addr);
    OneAddress(addr, "tcp" + "://" + host + ":" + Itoa(port));
    assert "tcp" + "://" == "tcp://";
  }

  lemma HostAlone(host: string)
    requires ':' !in host && host != []
    ensures Normalised([host]) == ["tcp://" + host + ":1883"]
  {
    NoColon(host, "://");
    NoColon(host, ":");
    SchemeLess(host, host, 1883);
    PortNumbers();
    Joined("tcp", "tcp://", host, "1883", ":1883");
  }

  lemma HostPortLocated(host: string, number: string)
    requires ':' !in host && ':' !in number
    ensures Located("tcp", host + ":" + number, host, Atoi(number))
  {
    CutAt(host, ":", number);
    NoColon(number, ":");
    assert UpTo(number, ":", number);
  }

  lemma HostAndPort(host: string, port: int)
    requires ':' !in host && IsInt64(port)
    ensures Normalised([host + ":" + Itoa(port)]) == ["tcp://" + host + ":" + Itoa(port)]
  {
    var addr := host + ":" + Itoa(port);
    assert Absent(addr, "://") by { HostPortSplits(host, Itoa(port)); UpToIs(addr, "://", addr); }
    NumberRoundTrip(port);
    HostPortLocated(host, Itoa(port));
    SchemeLess(addr, host, port);
  }

  /** Empty, or with a scheme that is none of the three. */
  ghost predicate Foreign(addr: string) {
    addr == "" || exists scheme, post :: Cut(addr, "://", scheme, post) && scheme !in ["tcp", "ssl", "ws"]
  }

  lemma ForeignIff(addr: string)
    ensures Foreign(addr) <==> Entry(addr) == []
  {
    YieldsIff(addr, []);
    UpToIs(addr, "://", addr);
    if addr != "" {
      if Absent(addr, "://") {
        forall scheme, post ensures !Cut(addr, "://", scheme, post) {
          if Cut(addr, "://", scheme, post) {
            CutUnique(addr, "://", scheme, post);
          }
        }
      } else {
        var post := CutIs(addr, "://");
        var scheme := addr[..Index(addr, "://")];
        forall x, y | Cut(addr, "://", x, y) ensures x == scheme {
          CutUnique(addr, "://", x, y);
        }
      }
    }
  }

  lemma {:induction false} CollectAppend(entry: string -> seq<string>, xs: seq<string>, ys: seq<string>)
    ensures Collect(entry, xs + ys) == Collect(entry, xs) + Collect(entry, ys)
  {
    if ys == [] {
      assert xs + ys == xs;
    } else {
      assert (xs + ys)[..|xs + ys| - 1] == xs + ys[..|ys| - 1];
      CollectAppend(entry, xs, ys[..|ys| - 1]);
    }
  }

  ghost predicate Ignored(addr: string) {
    forall xs, ys :: Normalised(xs + [addr] + ys) == Normalised(xs + ys)
  }

  lemma CollectSingle(entry: string -> seq<string>, addr: string)
    ensures Collect(entry, [addr]) == entry(addr)
  {
    assert [addr][..0] == [];
    assert Collect(entry, []) == [];
  }

  lemma CollectOne(addr: string)
    ensures Accepted([addr]) == Entry(addr)
  {
    CollectSingle(Entry, addr);
  }

  lemma Inserted(xs: seq<string>, addr: string, ys: seq<string>)
    ensures Accepted(xs + [addr] + ys) == Accepted(xs) + Entry(addr) + Accepted(ys)
    ensures Accepted(xs + ys) == Accepted(xs) + Accepted(ys)
  {
    CollectAppend(Entry, xs + [addr], ys);
    CollectAppend(Entry, xs, [addr]);
    CollectAppend(Entry, xs, ys);
    CollectOne(addr);
  }

  /** Next to another address, one that yields something makes the result longer. */
  lemma Noticed(host: string, addr: string)
    requires Entry(host) != [] && Entry(addr) != []
    ensures !Ignored(addr)
  {
    Inserted([host], addr, []);
    CollectOne(host);
    assert |Normalised([host] + [addr] + [])| == |Entry(host)| + |Entry(addr)|;
    assert |Normalised([host] + [])| == |Entry(host)|;
  }

  /** An address makes no difference, wherever it stands, exactly when it is empty or has a scheme other
      than tcp, ssl and ws. */
  lemma IgnoredIff(addr: string)
    ensures Ignored(addr) <==> Foreign(addr)
  {
    ForeignIff(addr);
    if Foreign(addr) {
      forall xs, ys ensures Normalised(xs + [addr] + ys) == Normalised(xs + ys) {
        Inserted(xs, addr, ys);
      }
    } else {
      Noticed(addr, addr);
    }
  }
}
