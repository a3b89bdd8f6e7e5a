/** The desktop URL and its Basic credentials (`app/src-tauri/src/vncproxy.rs`), on
    the bytes of the URL: every delimiter is ASCII, so byte and character positions
    cut the text in the same places. */
module VncUrl {
  import opened Basics

  type Text = seq<byte>

  /** An ASCII literal as bytes. */
  function Ascii(s: string): (t: Text)
    requires forall i :: 0 <= i < |s| ==> s[i] < 128 as char
    ensures |t| == |s| && forall i :: 0 <= i < |s| ==> t[i] == s[i] as int
  {
    seq(|s|, i requires 0 <= i < |s| => s[i] as int)
  }

  const SLASH: byte := 47
  const COLON: byte := 58
  const AT: byte := 64

  // ---- Base64 (section 4 of RFC 4648) ----

  /** The 64 letters, in order of value. */
  function Letter(v: nat): (b: byte)
    requires v < 64
    ensures b != 61
  {
    if v < 26 then 65 + v
    else if v < 52 then 97 + v - 26
    else if v < 62 then 48 + v - 52
    else if v == 62 then 43
    else 47
  }

  function Sextet(b: byte): (v: Option<nat>)
    ensures v.Some? ==> v.value < 64 && Letter(v.value) == b
    ensures forall n: nat :: n < 64 && Letter(n) == b ==> v == Some(n)
  {
    if 65 <= b <= 90 then Some(b - 65)
    else if 97 <= b <= 122 then Some(b - 97 + 26)
    else if 48 <= b <= 57 then Some(b - 48 + 52)
    else if b == 43 then Some(62)
    else if b == 47 then Some(63)
    else None
  }

  const PAD: byte := 61

  function Encode64(s: Text): (t: Text)
    ensures |t| == 4 * ((|s| + 2) / 3)
  {
    if s == [] then []
    else if |s| == 1 then
      [Letter(s[0] / 4), Letter(s[0] % 4 * 16), PAD, PAD]
    else if |s| == 2 then
      [Letter(s[0] / 4), Letter(s[0] % 4 * 16 + s[1] / 16), Letter(s[1] % 16 * 4), PAD]
    else
      [Letter(s[0] / 4), Letter(s[0] % 4 * 16 + s[1] / 16), Letter(s[1] % 16 * 4 + s[2] / 64), Letter(s[2] % 64)]
      + Encode64(s[3..])
  }

  /** One group of four letters, with padding only at the end and no stray bits. */
  function DecodeGroup(g: Text, last: bool): Option<Text>
    requires |g| == 4
  {
    match (Sextet(g[0]), Sextet(g[1]), Sextet(g[2]), Sextet(g[3]))
    case (Some(a), Some(b), Some(c), Some(d)) =>
      Some([a * 4 + b / 16, b % 16 * 16 + c / 4, c % 4 * 64 + d])
    case (Some(a), Some(b), Some(c), None) =>
      if last && g[3] == PAD && c % 4 == 0 then Some([a * 4 + b / 16, b % 16 * 16 + c / 4]) else None
    case (Some(a), Some(b), None, None) =>
      if last && g[2] == PAD && g[3] == PAD && b % 16 == 0 then Some([a * 4 + b / 16]) else None
    case _ => None
  }

  function Decode64(t: Text): Option<Text> {
    if t == [] then Some([])
    else if |t| < 4 then None
    else
      match (DecodeGroup(t[..4], |t| == 4), Decode64(t[4..]))
      case (Some(a), Some(b)) => Some(a + b)
      case _ => None
  }

  /** The encoding can be undone. */
  lemma {:induction false} Base64RoundTrip(s: Text)
    ensures Decode64(Encode64(s)) == Some(s)
  {
    hide DecodeGroup, Letter;
    var t := Encode64(s);
    if s == [] {
    } else if |s| == 1 {
      assert t[..4] == t && t[4..] == [] && s == [s[0]];
      SingleRoundTrip(s[0]);
      assert Decode64(t[4..]) == Some([]) && s + [] == s;
    } else if |s| == 2 {
      assert t[..4] == t && t[4..] == [] && s == [s[0], s[1]];
      PairRoundTrip(s[0], s[1]);
      assert Decode64(t[4..]) == Some([]) && s + [] == s;
    } else {
      GroupRoundTrip(s[0], s[1], s[2], |t| == 4);
      assert t[4..] == Encode64(s[3..]);
      assert t[..4] == [Letter(s[0] / 4), Letter(s[0] % 4 * 16 + s[1] / 16),
                        Letter(s[1] % 16 * 4 + s[2] / 64), Letter(s[2] % 64)];
      Base64RoundTrip(s[3..]);
      assert s == [s[0], s[1], s[2]] + s[3..];
    }
  }

  lemma SextetOfLetter(v: nat)
    requires v < 64
    ensures Sextet(Letter(v)) == Some(v)
  {
  }

  lemma GroupRoundTrip(x: byte, y: byte, z: byte, last: bool)
    ensures DecodeGroup([Letter(x / 4), Letter(x % 4 * 16 + y / 16), Letter(y % 16 * 4 + z / 64), Letter(z % 64)], last)
            == Some([x, y, z])
  {
    hide Sextet, Letter;
    var a, b, c, d := x / 4, x % 4 * 16 + y / 16, y % 16 * 4 + z / 64, z % 64;
    assert b / 16 == x % 4 && b % 16 == y / 16;
    assert c / 4 == y % 16 && c % 4 == z / 64;
    SextetOfLetter(a);
    SextetOfLetter(b);
    SextetOfLetter(c);
    SextetOfLetter(d);
  }

  /** The letters are those of table 1 of RFC 4648. */
  lemma LetterIs(v: nat)
    requires v < 64
    ensures v < 26 ==> Letter(v) == 'A' as int + v
    ensures 26 <= v < 52 ==> Letter(v) == 'a' as int + (v - 26)
    ensures 52 <= v < 62 ==> Letter(v) == '0' as int + (v - 52)
    ensures v == 62 ==> Letter(v) == '+' as int
    ensures v == 63 ==> Letter(v) == '/' as int
  {
  }

  /** Three bytes and the four letters they are encoded as are the same 24-bit number,
      and the encoding goes on from there. */
  lemma SameNumber(s: Text) returns (a: nat, b: nat, c: nat, d: nat)
    requires |s| >= 3
    ensures a < 64 && b < 64 && c < 64 && d < 64
    ensures Encode64(s) == [Letter(a), Letter(b), Letter(c), Letter(d)] + Encode64(s[3..])
    ensures ((a * 64 + b) * 64 + c) * 64 + d == (s[0] as int * 256 + s[1] as int) * 256 + s[2] as int
  {
    hide Letter;
    var x, y, z: int := s[0], s[1], s[2];
    a, b, c, d := x / 4, x % 4 * 16 + y / 16, y % 16 * 4 + z / 64, z % 64;
    assert x == 4 * (x / 4) + x % 4 && y == 16 * (y / 16) + y % 16 && z == 64 * (z / 64) + z % 64;
  }

  lemma PadIsNoLetter()
    ensures Sextet(PAD).None?
  {
  }

  lemma PairRoundTrip(x: byte, y: byte)
    ensures DecodeGroup([Letter(x / 4), Letter(x % 4 * 16 + y / 16), Letter(y % 16 * 4), PAD], true) == Some([x, y])
  {
    hide Sextet, Letter;
    var b, c := x % 4 * 16 + y / 16, y % 16 * 4;
    assert b / 16 == x % 4 && b % 16 == y / 16;
    assert c / 4 == y % 16 && c % 4 == 0;
    SextetOfLetter(x / 4);
    SextetOfLetter(b);
    SextetOfLetter(c);
    PadIsNoLetter();
  }

  lemma SingleRoundTrip(x: byte)
    ensures DecodeGroup([Letter(x / 4), Letter(x % 4 * 16), PAD, PAD], true) == Some([x])
  {
    hide Sextet, Letter;
    var b := x % 4 * 16;
    assert b / 16 == x % 4 && b % 16 == 0;
    SextetOfLetter(x / 4);
    SextetOfLetter(b);
    PadIsNoLetter();
  }

  // ---- Ports ----

  predicate IsDigit(b: byte) {
    48 <= b <= 57
  }

  predicate AllDigits(s: Text) {
    forall i :: 0 <= i < |s| ==> IsDigit(s[i])
  }

  function NumberOf(s: Text): nat
    requires AllDigits(s)
  {
    if s == [] then 0 else 10 * NumberOf(s[..|s| - 1]) + (s[|s| - 1] as int - 48)
  }

  /** Rust's `u16::from_str`: an optional plus, at least one digit, no overflow. */
  function ParsePort(s: Text): Option<nat> {
    var digits := if |s| > 1 && s[0] == 43 then s[1..] else s;
    if digits == [] || !AllDigits(digits) || NumberOf(digits) > 65535 then None
    else Some(NumberOf(digits))
  }

  /** A port is read exactly when it is digits that come to 65535 at most, with a plus sign
      in front or not. */
  lemma PortIsRead(s: Text, n: nat)
    ensures ParsePort(s) == Some(n) <==>
            n <= 65535 && exists digits: Text ::
              digits != [] && AllDigits(digits) && NumberOf(digits) == n && (s == digits || s == [43] + digits)
  {
    hide NumberOf;
    if ParsePort(s) == Some(n) {
      var digits := if |s| > 1 && s[0] == 43 then s[1..] else s;
      assert s == digits || s == [43] + digits;
    }
    if digits: Text :| digits != [] && AllDigits(digits) && NumberOf(digits) == n
                       && (s == digits || s == [43] + digits) {
      assert IsDigit(digits[0]);
      assert ([43] + digits)[1..] == digits;
    }
  }

  lemma {:induction false} PortText(n: nat)
    ensures var s := Ascii(Decimal(n));
            AllDigits(s) && NumberOf(s) == n
  {
    var s := Ascii(Decimal(n));
    if n >= 10 {
      PortText(n / 10);
      assert s[..|s| - 1] == Ascii(Decimal(n / 10));
    } else {
      assert s[..0] == [];
    }
  }

  // ---- The URL ----

  datatype Target = Target(port: nat, authorization: Text)

  datatype Error = NotHttp | NoCredentials | NotUserPassword | EmptyCredentials | NoHostPort | NotLoopback | BadPort

  datatype Result = Ok(target: Target) | Err(error: Error)

  function FirstOf(s: Text, b: byte): (r: Option<nat>)
    ensures r.Some? ==> r.value < |s| && s[r.value] == b && forall j :: 0 <= j < r.value ==> s[j] != b
    ensures r.None? ==> b !in s
  {
    if s == [] then None
    else if s[0] == b then Some(0)
    else
      match FirstOf(s[1..], b)
      case None => None
      case Some(i) =>
        assert forall j :: 0 < j < i + 1 ==> s[j] == s[1..][j - 1];
        Some(i + 1)
  }

  function LastOf(s: Text, b: byte): (r: Option<nat>)
    ensures r.Some? ==> r.value < |s| && s[r.value] == b && forall j :: r.value < j < |s| ==> s[j] != b
    ensures r.None? ==> b !in s
  {
    if s == [] then None
    else if s[|s| - 1] == b then Some(|s| - 1)
    else
      match LastOf(s[..|s| - 1], b)
      case None => None
      case Some(i) => Some(i)
  }

  const HTTP: Text := Ascii("http://")
  const LOOPBACK: Text := Ascii("127.0.0.1")
  const BASIC: Text := Ascii("Basic ")

  /** `parse_vnc_url`. */
  function ParseVncUrl(url: Text): Result {
    if !(HTTP <= url) then Err(NotHttp) else ParseAuthority(Before(url[|HTTP|..], SLASH))
  }

  /** Up to the first occurrence, or all of it. */
  function Before(s: Text, b: byte): Text {
    match FirstOf(s, b) case Some(i) => s[..i] case None => s
  }

  function ParseAuthority(authority: Text): Result {
    match LastOf(authority, AT)
    case None => Err(NoCredentials)
    case Some(at) =>
      var userinfo, hostport := authority[..at], authority[at + 1..];
      match FirstOf(userinfo, COLON)
      case None => Err(NotUserPassword)
      case Some(c) =>
        var user, password := userinfo[..c], userinfo[c + 1..];
        if user == [] || password == [] then Err(EmptyCredentials) else ParseHostPort(user, password, hostport)
  }

  function ParseHostPort(user: Text, password: Text, hostport: Text): Result {
    match LastOf(hostport, COLON)
    case None => Err(NoHostPort)
    case Some(p) =>
      if hostport[..p] != LOOPBACK then Err(NotLoopback)
      else
        match ParsePort(hostport[p + 1..])
        case None => Err(BadPort)
        case Some(port) => Ok(Target(port, BASIC + Encode64(user + [COLON] + password)))
  }

  /** The shape the daemon prints, with any path. */
  function UrlOf(user: Text, password: Text, port: Text, path: Text): Text {
    HTTP + Authority(user, password, port) + path
  }

  function Authority(user: Text, password: Text, port: Text): Text {
    (user + [COLON] + password) + [AT] + HostPort(port)
  }

  function HostPort(port: Text): Text {
    LOOPBACK + [COLON] + port
  }

  /** Values that can stand in those places. */
  ghost predicate Fields(user: Text, password: Text, port: Text, path: Text) {
    && user != [] && COLON !in user && SLASH !in user
    && password != [] && SLASH !in password
    && ParsePort(port).Some?
    && (path == [] || path[0] == SLASH)
  }

  lemma PortHasNoDelimiter(port: Text, b: byte)
    requires ParsePort(port).Some? && b in {SLASH, COLON, AT}
    ensures b !in port
  {
    var digits := if |port| > 1 && port[0] == 43 then port[1..] else port;
    assert AllDigits(digits);
    assert port == digits || port == [port[0]] + digits;
  }

  lemma FirstOfIs(a: Text, b: byte, rest: Text)
    requires b !in a
    ensures FirstOf(a + [b] + rest, b) == Some(|a|)
  {
    hide FirstOf;
    var s := a + [b] + rest;
    assert s[|a|] == b && s[|a|] in s;
    assert forall j :: 0 <= j < |a| ==> s[j] == a[j] && a[j] in a;
  }

  lemma LastAt(s: Text, b: byte, i: nat)
    requires i < |s| && s[i] == b && b !in s[i + 1..]
    ensures LastOf(s, b) == Some(i)
  {
    hide LastOf;
    forall j | i < j < |s| ensures s[j] != b {
      assert s[j] == s[i + 1..][j - i - 1];
    }
    assert s[i] in s;
  }

  lemma LastOfIs(rest: Text, b: byte, z: Text)
    requires b !in z
    ensures LastOf(rest + [b] + z, b) == Some(|rest|)
  {
    hide LastOf;
    var s := rest + [b] + z;
    assert s[|rest|] == b;
    assert s[|rest| + 1..] == z;
    LastAt(s, b, |rest|);
  }

  /** Parsing inverts printing: for every user without ':' or '/' and every password
      without '/' (colons and at-signs are fine) the URL yields that port and
      credentials that decode to user:password. */
  lemma ParseInvertsPrint(user: Text, password: Text, port: Text, path: Text)
    requires Fields(user, password, port, path)
    ensures ParseVncUrl(UrlOf(user, password, port, path))
            == Ok(Target(ParsePort(port).value, BASIC + Encode64(user + [COLON] + password)))
    ensures Decode64(Encode64(user + [COLON] + password)) == Some(user + [COLON] + password)
  {
    hide Encode64, ParsePort, Ascii, Decode64, ParseAuthority, Before, Authority;
    Base64RoundTrip(user + [COLON] + password);
    var url, authority := UrlOf(user, password, port, path), Authority(user, password, port);
    assert url == HTTP + (authority + path);
    assert url[|HTTP|..] == authority + path && HTTP <= url;
    AuthorityCut(user, password, port, path);
    AuthorityParses(user, password, port);
  }

  lemma NoDelimiterInHostPort(port: Text)
    requires ParsePort(port).Some?
    ensures AT !in HostPort(port) && SLASH !in HostPort(port)
  {
    PortHasNoDelimiter(port, AT);
    PortHasNoDelimiter(port, SLASH);
    assert forall i :: 0 <= i < |LOOPBACK| ==> LOOPBACK[i] == "127.0.0.1"[i] as int;
  }

  /** The authority is what precedes the path. */
  lemma AuthorityCut(user: Text, password: Text, port: Text, path: Text)
    requires Fields(user, password, port, path)
    ensures Before(Authority(user, password, port) + path, SLASH) == Authority(user, password, port)
  {
    hide FirstOf, HostPort, ParsePort;
    var a := Authority(user, password, port);
    NoDelimiterInHostPort(port);
    assert SLASH !in a;
    if path != [] {
      FirstOfIs(a, SLASH, path[1..]);
      assert a + path == a + [SLASH] + path[1..];
    } else {
      assert a + path == a;
    }
  }

  lemma AuthorityParses(user: Text, password: Text, port: Text)
    requires Fields(user, password, port, [])
    ensures ParseAuthority(Authority(user, password, port))
            == Ok(Target(ParsePort(port).value, BASIC + Encode64(user + [COLON] + password)))
  {
    hide Encode64, ParsePort, FirstOf, LastOf, HostPort, ParseHostPort;
    var userinfo, hostport := user + [COLON] + password, HostPort(port);
    var a := Authority(user, password, port);
    NoDelimiterInHostPort(port);
    LastOfIs(userinfo, AT, hostport);
    assert a[..|userinfo|] == userinfo && a[|userinfo| + 1..] == hostport;
    FirstOfIs(user, COLON, password);
    assert userinfo[..|user|] == user && userinfo[|user| + 1..] == password;
    HostPortParses(user, password, port);
  }

  lemma HostPortParses(user: Text, password: Text, port: Text)
    requires ParsePort(port).Some?
    ensures ParseHostPort(user, password, HostPort(port))
            == Ok(Target(ParsePort(port).value, BASIC + Encode64(user + [COLON] + password)))
  {
    hide Encode64, ParsePort, LastOf, Ascii;
    PortHasNoDelimiter(port, COLON);
    LastOfIs(LOOPBACK, COLON, port);
    var hostport := HostPort(port);
    assert hostport[..|LOOPBACK|] == LOOPBACK && hostport[|LOOPBACK| + 1..] == port;
  }

  /** Nothing else is accepted: a URL that parses has that shape, loopback host
      included, and the credentials sent are exactly the ones in it. */
  lemma ParseAcceptsOnlyPrinted(url: Text) returns (user: Text, password: Text, port: Text, path: Text)
    requires ParseVncUrl(url).Ok?
    ensures Fields(user, password, port, path) && url == UrlOf(user, password, port, path)
  {
    hide ParsePort, Ascii, ParseAuthority, Authority;
    var rest := url[|HTTP|..];
    var authority := Before(rest, SLASH);
    path := rest[|authority|..];
    assert SLASH !in authority;
    user, password, port := AuthorityShape(authority);
    assert rest == authority + path;
    assert url == HTTP + rest;
    assert url == HTTP + authority + path;
  }

  lemma AuthorityShape(authority: Text) returns (user: Text, password: Text, port: Text)
    requires ParseAuthority(authority).Ok? && SLASH !in authority
    ensures Fields(user, password, port, []) && authority == Authority(user, password, port)
  {
    hide ParsePort, Ascii, FirstOf, LastOf, Encode64;
    var at := LastOf(authority, AT).value;
    var userinfo, hostport := authority[..at], authority[at + 1..];
    var c := FirstOf(userinfo, COLON).value;
    user, password := userinfo[..c], userinfo[c + 1..];
    var p := LastOf(hostport, COLON).value;
    port := hostport[p + 1..];
    assert userinfo == user + [COLON] + password;
    assert hostport == HostPort(port);
    assert authority == userinfo + [AT] + hostport;
    assert forall b :: b in user || b in password ==> b in authority;
  }

  /** The daemon's own port text is one the parser reads back. */
  lemma DaemonPort(port: nat)
    requires port <= 65535
    ensures ParsePort(Ascii(Decimal(port))) == Some(port)
  {
    PortText(port);
  }
}
