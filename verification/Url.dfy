/**
 Pasting and parsing URLs (RFC 3986 section 3) and the scheme names they use. A C string is the
 sequence of its characters before the terminator; comparisons ignore the case of ASCII letters.
 */
module Url {

  datatype Option<T> = None | Some(value: T)

  // The schemes of the header file; those of users are numbered from 0.
  datatype Scheme =
    | FILE | FTP | SFTP | HTTP | HTTPS | WS | WSS | SIP | SIPS | MAILTO | SMB | SSH | DAV
    | USER(i: nat)

  const USER_SCHEMES: nat := 4
  const MAX_SCHEME: nat := 8    // with the terminator
  const MAX_PORT_SPEC: nat := 5

  // ---- Names ----

  function LowerChar(c: char): char {
    if 'A' <= c <= 'Z' then c - 'A' + 'a' else c
  }

  function Lower(s: string): (r: string)
    ensures |r| == |s|
    ensures forall i :: 0 <= i < |s| ==> r[i] == LowerChar(s[i])
  {
    if s == "" then "" else [LowerChar(s[0])] + Lower(s[1..])
  }

  function Cut(s: string, n: nat): string {
    if |s| <= n then s else s[..n]
  }

  // butil_scheme_name: the names that are printed.
  function Name(users: seq<string>, scheme: Scheme): string {
    match scheme
    case DAV => "dav"
    case FILE => "file"
    case FTP => "ftp"
    case SFTP => "sftp"
    case HTTP => "http"
    case HTTPS => "https"
    case WS => "ws"
    case WSS => "wss"
    case SIP => "sip"
    case SIPS => "sips"
    case SSH => "ssh"
    case MAILTO => "mailto"
    case SMB => "????"
    case USER(i) => if i < |users| && users[i] != "" then users[i] else "????"
  }

  // The names that are recognized.
  function Builtin(name: string): Option<Scheme> {
    var n := Lower(name);
    if n == "dav" then Some(DAV)
    else if n == "file" then Some(FILE)
    else if n == "smb" then Some(SMB)
    else if n == "ssh" then Some(SSH)
    else if n == "https" then Some(HTTPS)
    else if n == "http" then Some(HTTP)
    else if n == "sftp" then Some(SFTP)
    else if n == "ftp" then Some(FTP)
    else if n == "wss" then Some(WSS)
    else if n == "ws" then Some(WS)
    else if n == "mailto" then Some(MAILTO)
    else None
  }

  // strncasecmp over the length of a registered name: the name need only begin with it.
  predicate Matches(name: string, user: string) {
    user != "" && Lower(user) <= Lower(name)
  }

  // The first registered name at k or later that matches.
  function UserMatch(users: seq<string>, name: string, k: nat): Option<Scheme>
    decreases |users| - k
  {
    if k >= |users| then None
    else if Matches(name, users[k]) then Some(USER(k))
    else UserMatch(users, name, k + 1)
  }

  function FromName(users: seq<string>, name: string): Option<Scheme> {
    match Builtin(name)
    case Some(s) => Some(s)
    case None => UserMatch(users, name, 0)
  }

  // The schemes known to both tables that have a host.
  predicate InBoth(s: Scheme) {
    s.FTP? || s.SFTP? || s.HTTP? || s.HTTPS? || s.WS? || s.WSS? || s.MAILTO? || s.SSH? || s.DAV?
  }

  // The scheme names in memory, as butil_register_scheme fills them in.
  class SchemeTable {
    var users: seq<string>

    ghost predicate Valid()
      reads this
    {
      |users| == USER_SCHEMES && forall i :: 0 <= i < |users| ==> |users[i]| < MAX_SCHEME
    }

    constructor ()
      ensures Valid() && users == ["", "", "", ""]
    {
      users := ["", "", "", ""];
    }

    // The first free place takes the name, cut to what fits.
    method Register(name: string) returns (scheme: Option<Scheme>)
      requires Valid()
      modifies this
      ensures Valid()
      ensures match scheme
        case Some(USER(i)) =>
          && i < USER_SCHEMES && old(users)[i] == "" && "" !in old(users)[..i]
          && users == old(users)[i := Cut(name, MAX_SCHEME - 1)]
        case Some(_) => false
        case None => "" !in old(users) && users == old(users)
    {
      var i := 0;
      while i < USER_SCHEMES
        invariant i <= USER_SCHEMES && users == old(users) && "" !in users[..i]
      {
        if users[i] == "" {
          users := users[i := Cut(name, MAX_SCHEME - 1)];
          return Some(USER(i));
        }
        i := i + 1;
      }
      assert users[..i] == users;
      return None;
    }

    method Find(name: string) returns (scheme: Option<Scheme>)
      requires Valid()
      ensures scheme == FromName(users, name)
    {
      scheme := Builtin(name);
      if scheme.Some? { return; }
      var i := 0;
      while i < USER_SCHEMES
        invariant i <= USER_SCHEMES && UserMatch(users, name, i) == UserMatch(users, name, 0)
      {
        if users[i] != "" && Matches(name, users[i]) { return Some(USER(i)); }
        i := i + 1;
      }
      return None;
    }
  }

  // A registered name is found again exactly when no built-in name is the same and no name
  // registered in an earlier place is a prefix of it.
  lemma {:induction false} RegisteredNameFound(users: seq<string>, i: nat)
    requires i < |users| && users[i] != ""
    ensures FromName(users, Lower(users[i])) == Some(USER(i)) <==>
      Builtin(users[i]) == None && forall j :: 0 <= j < i ==> !Matches(users[i], users[j])
  {
    LowerLower(users[i]);
    FirstMatch(users, users[i], 0, i);
    FirstMatch(users, Lower(users[i]), 0, i);
  }

  lemma LowerLower(s: string)
    ensures Lower(Lower(s)) == Lower(s)
  {
    assert forall c :: LowerChar(LowerChar(c)) == LowerChar(c);
  }

  lemma {:induction false} FirstMatch(users: seq<string>, name: string, k: nat, i: nat)
    requires k <= i < |users| && Matches(name, users[i])
    ensures UserMatch(users, name, k) == Some(USER(i)) <==> forall j :: k <= j < i ==> !Matches(name, users[j])
    decreases i - k
  {
    if k < i {
      if Matches(name, users[k]) {
        assert UserMatch(users, name, k) == Some(USER(k));
      } else {
        FirstMatch(users, name, k + 1, i);
        assert UserMatch(users, name, k) == UserMatch(users, name, k + 1);
      }
    }
  }

  // ---- Pieces of a URL ----

  // strstr
  function IndexOf(s: string, pat: string): Option<nat> {
    if |s| < |pat| then None
    else if s[..|pat|] == pat then Some(0)
    else if s == "" then None
    else match IndexOf(s[1..], pat)
      case None => None
      case Some(i) => Some(i + 1)
  }

  lemma {:induction false} IndexOfFits(s: string, pat: string)
    ensures IndexOf(s, pat).Some? ==> IndexOf(s, pat).value + |pat| <= |s|
  {
    if |s| >= |pat| && s[..|pat|] != pat && s != "" { IndexOfFits(s[1..], pat); }
  }

  // Where the host ends.
  function HostEnd(s: string): (n: nat)
    ensures n <= |s| && (n < |s| ==> s[n] == ':' || s[n] == '/')
  {
    if s == "" || s[0] == ':' || s[0] == '/' then 0 else 1 + HostEnd(s[1..])
  }

  predicate IsSpace(c: char) {
    c == ' ' || c == '\t' || c == '\n' || c == '\r' || c as int == 11 || c as int == 12
  }

  predicate IsDigit(c: char) { '0' <= c <= '9' }

  function Spaces(s: string): (n: nat)
    ensures n <= |s|
  {
    if s == "" || !IsSpace(s[0]) then 0 else 1 + Spaces(s[1..])
  }

  function Digits(s: string): (n: nat)
    ensures n <= |s| && forall i :: 0 <= i < n ==> IsDigit(s[i])
  {
    if s == "" || !IsDigit(s[0]) then 0 else 1 + Digits(s[1..])
  }

  function Value(s: string): nat
    requires forall i :: 0 <= i < |s| ==> IsDigit(s[i])
  {
    if s == "" then 0
    else
      assert IsDigit(s[|s| - 1]);
      Value(s[..|s| - 1]) * 10 + (s[|s| - 1] as int - '0' as int)
  }

  const ULONG_MAX: nat := 0xFFFF_FFFF_FFFF_FFFF

  // strtoul in base 10: the value, and how many characters it took; none without a digit.
  function Strtoul(s: string): (r: (nat, nat))
    ensures r.1 <= |s|
  {
    var w := Spaces(s);
    var sign := if w < |s| && (s[w] == '+' || s[w] == '-') then 1 else 0;
    var t := s[w + sign..];
    var n := Digits(t);
    if n == 0 then (0, 0)
    else
      var v := Value(t[..n]);
      (if v > ULONG_MAX then ULONG_MAX else if sign == 1 && s[w] == '-' && v > 0 then ULONG_MAX + 1 - v else v,
       w + sign + n)
  }

  function DefaultPort(s: Scheme): nat {
    match s
    case FTP => 21
    case SFTP => 23
    case HTTPS => 443
    case SIP => 5061
    case SIPS => 5062
    case MAILTO => 25
    case _ => 80
  }

  // ---- Parsing ----

  datatype Fault = SchemeTooLong | UnknownScheme | HostTooLong | BadPort | BadPath | PathTooLong

  datatype Parsed = Failed(fault: Fault) | Url(scheme: Scheme, host: string, port: nat, path: string)

  // The scheme's name and what follows it; without a scheme, what follows the first "//".
  function Head(url: string): (r: (string, string)) {
    match IndexOf(url, "://")
    case Some(i) => IndexOfFits(url, "://"); (url[..i], url[i + 3..])
    case None => ("http", AfterSlashes(url))
  }

  function AfterSlashes(url: string): string {
    match IndexOf(url, "//")
    case Some(i) => IndexOfFits(url, "//"); url[i + 2..]
    case None => url
  }

  // The path, "/" when it is empty, if it fits.
  function WithPath(scheme: Scheme, host: string, port: nat, path: string, npath: nat): (r: Parsed)
    ensures r.Url? ==> r.scheme == scheme && r.host == host && r.port == port && (r.path == path || r.path == "/")
  {
    if |path| >= npath then Failed(PathTooLong)
    else Url(scheme, host, port, if path == "" then "/" else path)
  }

  // A cast to uint16_t.
  function Narrowed(v: nat): (p: nat)
    ensures p < 0x10000 && (v < 0x10000 ==> p == v)
  {
    v % 0x10000
  }

  // What follows the host: a port, and then nothing or a path.
  function WithPort(scheme: Scheme, host: string, rest: string, npath: nat): (r: Parsed)
    ensures r.Url? ==> r.scheme == scheme && r.host == host && r.port < 0x10000
    ensures r.Url? ==> r.path != "" && r.path[0] == '/' && (|r.path| < npath || r.path == "/")
  {
    if rest != "" && rest[0] == ':' then
      var (value, used) := Strtoul(rest[1..]);
      if used > MAX_PORT_SPEC then Failed(BadPort)
      else Checked(scheme, host, Narrowed(value), rest[1 + used..], npath)
    else Checked(scheme, host, DefaultPort(scheme), rest, npath)
  }

  function Checked(scheme: Scheme, host: string, port: nat, rest: string, npath: nat): (r: Parsed)
    ensures r.Url? ==> r.scheme == scheme && r.host == host && r.port == port
    ensures r.Url? ==> r.path != "" && r.path[0] == '/' && (|r.path| < npath || r.path == "/")
  {
    if rest != "" && rest[0] != '/' then Failed(BadPath) else WithPath(scheme, host, port, rest, npath)
  }

  // butil_parse_url, for callers that want every part.
  function Parse(users: seq<string>, url: string, nhost: nat, npath: nat): Parsed {
    ParseFrom(users, Head(url).0, Head(url).1, nhost, npath)
  }

  function ParseFrom(users: seq<string>, name: string, rest: string, nhost: nat, npath: nat): Parsed {
    if |name| >= MAX_SCHEME then Failed(SchemeTooLong)
    else match FromName(users, name)
      case None => Failed(UnknownScheme)
      case Some(FILE) => WithPath(FILE, "", 80, rest, npath)
      case Some(scheme) =>
        var n := HostEnd(rest);
        if n >= nhost then Failed(HostTooLong)
        else WithPort(scheme, rest[..n], rest[n..], npath)
  }

  // What a call leaves in the caller's variables, whether it accepts the URL or not: each part is
  // set as soon as it is known, the path last.
  datatype Parts = Parts(scheme: Scheme, host: string, port: nat, path: string)

  function Left(users: seq<string>, url: string, nhost: nat, npath: nat): Parts {
    var (name, rest) := Head(url);
    if |name| >= MAX_SCHEME then Parts(HTTP, "", 80, "")
    else match FromName(users, name)
      case None => Parts(HTTP, "", 80, "")
      case Some(FILE) => Parts(FILE, "", 80, PathLeft(Parse(users, url, nhost, npath)))
      case Some(scheme) =>
        var n := HostEnd(rest);
        if n >= nhost then Parts(scheme, "", 80, "")
        else Parts(scheme, rest[..n], PortLeft(scheme, rest[n..]), PathLeft(Parse(users, url, nhost, npath)))
  }

  function PathLeft(r: Parsed): string {
    if r.Url? then r.path else ""
  }

  // The port, when what follows the host is read; it stays 80 if its text is too long.
  function PortLeft(scheme: Scheme, rest: string): (p: nat)
    ensures p < 0x10000
  {
    if rest != "" && rest[0] == ':' then
      var (value, used) := Strtoul(rest[1..]);
      if used > MAX_PORT_SPEC then 80 else Narrowed(value)
    else DefaultPort(scheme)
  }

  // On success these are the parts of the URL.
  lemma AcceptedParts(users: seq<string>, url: string, nhost: nat, npath: nat)
    requires Parse(users, url, nhost, npath).Url?
    ensures var u := Parse(users, url, nhost, npath);
      Left(users, url, nhost, npath) == Parts(u.scheme, u.host, u.port, u.path)
  {
  }

  // A buffer that holds a C string in front of what was there before.
  function Overwritten(was: seq<char>, s: string): (now: seq<char>)
    requires |s| < |was|
    ensures |now| == |was|
  {
    s + ['\0'] + was[|s| + 1..]
  }

  // Filling again overwrites at least as much.
  lemma OverwrittenAgain(was: seq<char>, s: string, t: string)
    requires |s| <= |t| < |was|
    ensures Overwritten(Overwritten(was, s), t) == Overwritten(was, t)
  {
  }

  // strncpy of a string and its terminator.
  method CopyString(to: array<char>, s: string)
    requires |s| < to.Length
    modifies to
    ensures to[..] == Overwritten(old(to[..]), s)
  {
    forall k | 0 <= k < |s| { to[k] := s[k]; }
    to[|s|] := '\0';
  }

  // The host is found by walking along it.
  method ScanHost(ps: string) returns (pe: nat)
    ensures pe == HostEnd(ps)
  {
    pe := 0;
    assert ps[0..] == ps;
    while pe < |ps| && ps[pe] != ':' && ps[pe] != '/'
      invariant pe <= |ps| && HostEnd(ps) == pe + HostEnd(ps[pe..])
    {
      assert ps[pe..][1..] == ps[pe + 1..];
      pe := pe + 1;
    }
  }

  // butil_parse_url into the caller's buffers. Each is emptied first, and an empty path is stored as
  // "/" whatever npath says; see AcceptedFits.
  method ParseUrl(table: SchemeTable, url: string, host: array<char>, nhost: nat, path: array<char>, npath: nat)
    returns (result: int, scheme: Scheme, port: nat)
    requires table.Valid() && host != path
    requires nhost <= host.Length && host.Length >= 1
    requires npath <= path.Length && path.Length >= 2
    modifies host, path
    ensures result == if Parse(table.users, url, nhost, npath).Url? then 0 else -1
    ensures var left := Left(table.users, url, nhost, npath);
      && scheme == left.scheme && port == left.port
      && |left.host| < host.Length && host[..] == Overwritten(old(host[..]), left.host)
      && |left.path| < path.Length && path[..] == Overwritten(old(path[..]), left.path)
  {
    scheme, port := HTTP, 80;
    ghost var wasHost, wasPath := host[..], path[..];
    CopyString(host, "");
    CopyString(path, "");
    var (name, rest) := Head(url);
    if |name| >= MAX_SCHEME { return -1, scheme, port; }
    var found := table.Find(name);
    if found == None { return -1, scheme, port; }
    scheme := found.value;
    if scheme == FILE {
      OverwrittenAgain(wasPath, "", if rest == "" then "/" else if |rest| < npath then rest else "");
      result := StorePath(path, rest, npath);
      return;
    }
    var pe := ScanHost(rest);
    if pe >= nhost { return -1, scheme, port; }
    OverwrittenAgain(wasHost, "", rest[..pe]);
    CopyString(host, rest[..pe]);
    result, port := ParseRest(scheme, rest[pe..], path, npath, rest[..pe], wasPath);
  }

  // What follows the host: the port, and the path.
  method ParseRest(scheme: Scheme, rest: string, path: array<char>, npath: nat, ghost host: string, ghost was: seq<char>)
    returns (result: int, port: nat)
    requires npath <= path.Length && path.Length >= 2
    requires |was| == path.Length && path[..] == Overwritten(was, "")
    modifies path
    ensures var r := WithPort(scheme, host, rest, npath);
      && result == (if r.Url? then 0 else -1)
      && port == PortLeft(scheme, rest)
      && |PathLeft(r)| < path.Length && path[..] == Overwritten(was, PathLeft(r))
  {
    var ok, ps;
    ok, port, ps := ParsePort(scheme, rest, host, npath);
    if !ok || (ps != "" && ps[0] != '/') { return -1, port; }
    OverwrittenAgain(was, "", if ps == "" then "/" else if |ps| < npath then ps else "");
    result := StorePath(path, ps, npath);
  }

  // The port, and the text after it; without one, the port of the scheme.
  method ParsePort(scheme: Scheme, rest: string, ghost host: string, ghost npath: nat) returns (ok: bool, port: nat, ps: string)
    ensures port == PortLeft(scheme, rest)
    ensures WithPort(scheme, host, rest, npath) == if ok then Checked(scheme, host, port, ps, npath) else Failed(BadPort)
  {
    if rest == "" || rest[0] != ':' { return true, DefaultPort(scheme), rest; }
    var (value, used) := Strtoul(rest[1..]);
    if used > MAX_PORT_SPEC { return false, 80, rest; }
    return true, Narrowed(value), rest[1 + used..];
  }

  method StorePath(path: array<char>, ps: string, npath: nat) returns (result: int)
    requires npath <= path.Length && path.Length >= 2
    modifies path
    ensures if |ps| >= npath then result == -1 && path[..] == old(path[..])
      else result == 0 && path[..] == Overwritten(old(path[..]), if ps == "" then "/" else ps)
  {
    if |ps| >= npath { return -1; }
    CopyString(path, if ps == "" then "/" else ps);
    return 0;
  }

  // An accepted URL's host fits its buffer. Its path and terminator fit npath, except when npath is 1,
  // where only an empty path is accepted and "/" is stored for it.
  lemma {:induction false} AcceptedFits(users: seq<string>, url: string, nhost: nat, npath: nat)
    requires Parse(users, url, nhost, npath).Url?
    ensures var u := Parse(users, url, nhost, npath);
      && (u.scheme != FILE ==> |u.host| < nhost) && (u.scheme == FILE ==> u.host == "")
      && (|u.path| < npath <==> npath != 1)
      && (npath == 1 ==> u.path == "/")
  {
    var (name, rest) := Head(url);
    if FromName(users, name) == Some(FILE) {
      PathFits(FILE, "", 80, rest, npath);
    } else {
      var n := HostEnd(rest);
      RestFits(FromName(users, name).value, rest[..n], rest[n..], npath);
    }
  }

  lemma PathFits(scheme: Scheme, host: string, port: nat, path: string, npath: nat)
    ensures var r := WithPath(scheme, host, port, path, npath);
      r.Url? ==> (|r.path| < npath <==> npath != 1) && (npath == 1 ==> r.path == "/")
  {
  }

  lemma RestFits(scheme: Scheme, host: string, rest: string, npath: nat)
    ensures var r := WithPort(scheme, host, rest, npath);
      r.Url? ==> (|r.path| < npath <==> npath != 1) && (npath == 1 ==> r.path == "/")
  {
    if rest != "" && rest[0] == ':' {
      var (value, used) := Strtoul(rest[1..]);
      PathFits(scheme, host, Narrowed(value), rest[1 + used..], npath);
    } else {
      PathFits(scheme, host, DefaultPort(scheme), rest, npath);
    }
  }

  // Such a URL: a host and nothing after it, with one character of room for the path.
  lemma EmptyPathIsStoredUnchecked(users: seq<string>, host: string, nhost: nat)
    requires ':' !in host && '/' !in host && |host| < nhost
    ensures Parse(users, "http://" + host, nhost, 1) == Url(HTTP, host, 80, "/")
  {
    HostAlone(users, host, nhost, 1);
    ParseHttp(users, host, nhost, 1);
  }

  lemma HostAlone(users: seq<string>, host: string, nhost: nat, npath: nat)
    requires ':' !in host && '/' !in host && |host| < nhost && npath > 0
    ensures ParseFrom(users, "http", host, nhost, npath) == Url(HTTP, host, 80, "/")
  {
    HttpParts(users, host, nhost, npath);
    HostEndAlone(host);
    assert host[..|host|] == host && host[|host|..] == "";
  }

  lemma {:induction false} HostEndAlone(host: string)
    requires ':' !in host && '/' !in host
    ensures HostEnd(host) == |host|
  {
    if host != "" { HostEndAlone(host[1..]); }
  }

  // ---- Pasting ----

  function Decimal(n: nat): string {
    if n < 10 then [(n as char) + '0'] else Decimal(n / 10) + [(n % 10) as char + '0']
  }

  function StripSlash(path: string): string {
    if path != "" && path[0] == '/' then path[1..] else path
  }

  // The port printed for port 0: the test for https is the wrong way round.
  function PortFor(name: string, port: nat): nat {
    if port != 0 then port else if name != "https" then 443 else 80
  }

  function PastedName(users: seq<string>, scheme: Scheme): string {
    Lower(Cut(Name(users, scheme), MAX_SCHEME - 1))
  }

  // butil_paste_url before the result is checked against the buffer.
  function Pasted(users: seq<string>, scheme: Scheme, host: string, port: nat, path: string): string {
    var name := PastedName(users, scheme);
    name + "://" + (host + (":" + (Decimal(PortFor(name, port)) + ("/" + StripSlash(path)))))
  }

  // Lower case in place, and the port that is printed.
  method LowerName(users: seq<string>, scheme: Scheme) returns (lc: string)
    ensures lc == PastedName(users, scheme)
  {
    var name, i := Cut(Name(users, scheme), MAX_SCHEME - 1), 0;
    lc := "";
    while i < |name|
      invariant i <= |name| && |lc| == i && forall k :: 0 <= k < i ==> lc[k] == LowerChar(name[k])
    {
      lc := lc + [if 'A' <= name[i] <= 'Z' then name[i] - 'A' + 'a' else name[i]];
      i := i + 1;
    }
    assert lc == Lower(name);
  }

  // butil_paste_url into the caller's buffer: snprintf stores what fits and a terminator, and the
  // call succeeds when that is all.
  method PasteUrl(table: SchemeTable, url: array<char>, nurl: nat, scheme: Scheme, host: string, port: nat, path: string)
    returns (result: int)
    requires table.Valid() && port < 0x10000 && nurl <= url.Length
    modifies url
    ensures var text := Pasted(table.users, scheme, host, port, path);
      && result == (if |text| < nurl then 0 else -1)
      && url[..] == (if nurl == 0 then old(url[..]) else Overwritten(old(url[..]), Cut(text, nurl - 1)))
  {
    var lc := LowerName(table.users, scheme);
    var useport := port;
    if useport == 0 { useport := if lc != "https" then 443 else 80; }
    var text := lc + "://" + (host + (":" + (Decimal(useport) + ("/" + StripSlash(path)))));
    assert text == Pasted(table.users, scheme, host, port, path);
    if nurl > 0 { CopyString(url, Cut(text, nurl - 1)); }
    result := if |text| < nurl then 0 else -1;
  }

  // ---- Numbers round trip ----

  lemma {:induction false} DecimalDigits(n: nat)
    ensures Decimal(n) != "" && forall i :: 0 <= i < |Decimal(n)| ==> IsDigit(Decimal(n)[i])
    ensures Value(Decimal(n)) == n
    ensures n < 100000 ==> |Decimal(n)| <= 5
  {
    if n >= 10 {
      DecimalDigits(n / 10);
      var d := Decimal(n);
      assert d[..|d| - 1] == Decimal(n / 10);
      DecimalLength(n);
    } else {
      assert Decimal(n)[..0] == "";
    }
  }

  lemma {:induction false} DecimalLength(n: nat)
    ensures n < 10 ==> |Decimal(n)| == 1
    ensures n < 100 ==> |Decimal(n)| <= 2
    ensures n < 1000 ==> |Decimal(n)| <= 3
    ensures n < 10000 ==> |Decimal(n)| <= 4
    ensures n < 100000 ==> |Decimal(n)| <= 5
  {
    if n >= 10 { DecimalLength(n / 10); }
  }

  lemma {:induction false} DigitsOfPrefix(d: string, rest: string)
    requires forall i :: 0 <= i < |d| ==> IsDigit(d[i])
    requires rest == "" || !IsDigit(rest[0])
    ensures Digits(d + rest) == |d|
  {
    if d == "" {
      assert d + rest == rest;
    } else {
      DigitsOfPrefix(d[1..], rest);
      assert (d + rest)[1..] == d[1..] + rest;
    }
  }

  lemma StrtoulDecimal(n: nat, rest: string)
    requires n < 100000 && (rest == "" || !IsDigit(rest[0]))
    ensures Strtoul(Decimal(n) + rest) == (n, |Decimal(n)|)
  {
    DecimalDigits(n);
    var s := Decimal(n) + rest;
    assert s[0] == Decimal(n)[0] && Spaces(s) == 0;
    assert s[0..] == s;
    DigitsOfPrefix(Decimal(n), rest);
    assert s[..|Decimal(n)|] == Decimal(n);
  }

  // ---- URLs round trip ----

  // A name without "://" in it is what stands before the first "://".
  lemma {:induction false} IndexOfMark(name: string, rest: string)
    requires IndexOf(name, "://") == None
    ensures IndexOf(name + "://" + rest, "://") == Some(|name|)
  {
    var s := name + "://" + rest;
    if name == "" {
      assert s[..3] == "://";
    } else {
      MarkNotYet(name, rest);
      assert s[1..] == name[1..] + "://" + rest;
      IndexOfMark(name[1..], rest);
    }
  }

  lemma MarkNotYet(name: string, rest: string)
    requires name != "" && IndexOf(name, "://") == None
    ensures (name + "://" + rest)[..3] != "://" && IndexOf(name[1..], "://") == None
  {
    var s := name + "://" + rest;
    if |name| >= 3 {
      assert s[..3] == name[..3];
    } else {
      assert s[..3][|name|] == ':';
    }
  }

  lemma {:induction false} NoColonNoMark(s: string)
    requires ':' !in s
    ensures IndexOf(s, "://") == None
  {
    if |s| >= 3 {
      assert s[..3][0] == s[0] != ':';
      NoColonNoMark(s[1..]);
    } else if s != "" {
      NoColonNoMark(s[1..]);
    }
  }

  lemma {:induction false} HostEndIs(host: string, rest: string)
    requires ':' !in host && '/' !in host
    requires rest != "" && (rest[0] == ':' || rest[0] == '/')
    ensures HostEnd(host + rest) == |host|
  {
    if host == "" {
      assert host + rest == rest;
    } else {
      HostEndIs(host[1..], rest);
      assert (host + rest)[1..] == host[1..] + rest;
    }
  }

  lemma NameFound(users: seq<string>, scheme: Scheme)
    requires InBoth(scheme)
    ensures var name := PastedName(users, scheme);
      |name| < MAX_SCHEME && IndexOf(name, "://") == None && FromName(users, name) == Some(scheme)
  {
    NameIsPasted(users, scheme);
    NoColonNoMark(PastedName(users, scheme));
  }

  lemma NameIsPasted(users: seq<string>, scheme: Scheme)
    requires InBoth(scheme)
    ensures var name := PastedName(users, scheme);
      name == Name(users, scheme) == Lower(name) && |name| < MAX_SCHEME && ':' !in name
  {
  }

  lemma HeadOf(name: string, rest: string)
    requires IndexOf(name, "://") == None
    ensures Head(name + "://" + rest) == (name, rest)
  {
    var url := name + "://" + rest;
    IndexOfMark(name, rest);
    assert url[..|name|] == name && url[|name| + 3..] == rest;
  }

  lemma PortAndPath(scheme: Scheme, host: string, port: nat, path: string, npath: nat)
    requires port < 0x10000 && |path| + 1 < npath
    ensures WithPort(scheme, host, ":" + (Decimal(port) + ("/" + path)), npath) == Url(scheme, host, port, "/" + path)
  {
    var tail := "/" + path;
    var rest := ":" + (Decimal(port) + tail);
    StrtoulDecimal(port, tail);
    DecimalDigits(port);
    assert rest[1..] == Decimal(port) + tail && rest[1 + |Decimal(port)|..] == tail;
  }

  // After the scheme, parsing is a matter of the host and what follows it.
  lemma {:induction false} ParseAfterHead(users: seq<string>, url: string, name: string, scheme: Scheme, host: string, rest: string, nhost: nat, npath: nat)
    requires Head(url) == (name, host + rest) && |name| < MAX_SCHEME
    requires FromName(users, name) == Some(scheme) && scheme != FILE
    requires ':' !in host && '/' !in host && |host| < nhost
    requires rest != "" && (rest[0] == ':' || rest[0] == '/')
    ensures Parse(users, url, nhost, npath) == WithPort(scheme, host, rest, npath)
  {
    HostEndIs(host, rest);
    assert (host + rest)[..|host|] == host && (host + rest)[|host|..] == rest;
  }

  // What parsing makes of scheme://host:port/path when the name is recognized.
  lemma ParseParts(users: seq<string>, name: string, scheme: Scheme, host: string, port: nat, path: string, nhost: nat, npath: nat)
    requires IndexOf(name, "://") == None && |name| < MAX_SCHEME && FromName(users, name) == Some(scheme) && scheme != FILE
    requires ':' !in host && '/' !in host && |host| < nhost
    requires port < 0x10000 && |path| + 1 < npath
    ensures Parse(users, name + "://" + (host + (":" + (Decimal(port) + ("/" + path)))), nhost, npath)
         == Url(scheme, host, port, "/" + path)
  {
    var rest := ":" + (Decimal(port) + ("/" + path));
    HeadOf(name, host + rest);
    ParseAfterHead(users, name + "://" + (host + rest), name, scheme, host, rest, nhost, npath);
    PortAndPath(scheme, host, port, path, npath);
  }

  // Pasting and parsing again gives back the parts; the path comes back with exactly one
  // leading '/'.
  lemma RoundTrip(users: seq<string>, scheme: Scheme, host: string, port: nat, path: string, nhost: nat, npath: nat)
    requires InBoth(scheme)
    requires ':' !in host && '/' !in host && |host| < nhost
    requires 0 < port < 0x10000 && |StripSlash(path)| + 1 < npath
    ensures Parse(users, Pasted(users, scheme, host, port, path), nhost, npath)
         == Url(scheme, host, port, "/" + StripSlash(path))
  {
    NameFound(users, scheme);
    ParseParts(users, PastedName(users, scheme), scheme, host, port, StripSlash(path), nhost, npath);
  }

  // Among the built-in schemes these are the only ones that come back: sip and sips are printed
  // but not recognized, smb is recognized but printed as "????", and file takes no host.
  lemma RoundTripExactly(users: seq<string>, scheme: Scheme, host: string, port: nat, path: string, nhost: nat, npath: nat)
    requires !scheme.USER?
    requires ':' !in host && '/' !in host && |host| < nhost
    requires 0 < port < 0x10000 && |StripSlash(path)| + 1 < npath
    ensures InBoth(scheme) <==>
      Parse(users, Pasted(users, scheme, host, port, path), nhost, npath) == Url(scheme, host, port, "/" + StripSlash(path))
  {
    if InBoth(scheme) {
      RoundTrip(users, scheme, host, port, path, nhost, npath);
    } else {
      var name := PastedName(users, scheme);
      var rest := ":" + (Decimal(PortFor(name, port)) + ("/" + StripSlash(path)));
      OtherNames(users, scheme);
      HeadOf(name, host + rest);
      NotBack(users, name + "://" + (host + rest), name, scheme, host, rest, port, nhost, npath, "/" + StripSlash(path));
    }
  }

  // A registered scheme comes back exactly when its name is found: no built-in name is the same, and
  // none registered in an earlier place is a prefix of it.
  lemma {:induction false} UserRoundTripExactly(users: seq<string>, i: nat, host: string, port: nat, path: string, nhost: nat, npath: nat)
    requires i < |users| && users[i] != "" && |users[i]| < MAX_SCHEME && IndexOf(users[i], "://") == None
    requires ':' !in host && '/' !in host && |host| < nhost
    requires 0 < port < 0x10000 && |StripSlash(path)| + 1 < npath
    ensures Parse(users, Pasted(users, USER(i), host, port, path), nhost, npath) == Url(USER(i), host, port, "/" + StripSlash(path))
      <==> Builtin(users[i]) == None && forall j :: 0 <= j < i ==> !Matches(users[i], users[j])
  {
    var name := PastedName(users, USER(i));
    assert name == Lower(users[i]);
    MarkInLower(users[i]);
    RegisteredNameFound(users, i);
    if FromName(users, name) == Some(USER(i)) {
      ParseParts(users, name, USER(i), host, port, StripSlash(path), nhost, npath);
    } else {
      var rest := ":" + (Decimal(port) + ("/" + StripSlash(path)));
      HeadOf(name, host + rest);
      NotBack(users, name + "://" + (host + rest), name, USER(i), host, rest, port, nhost, npath, "/" + StripSlash(path));
    }
  }

  // Lower case changes neither ':' nor '/'.
  lemma {:induction false} MarkInLower(s: string)
    ensures IndexOf(Lower(s), "://") == IndexOf(s, "://")
  {
    if |s| >= 3 { MarkStartsLower(s, Lower(s)); }
    if s != "" { MarkInLower(s[1..]); }
  }

  lemma MarkChar(c: char)
    ensures (LowerChar(c) == ':' <==> c == ':') && (LowerChar(c) == '/' <==> c == '/')
  {
  }

  lemma MarkStartsLower(s: string, l: string)
    requires |s| >= 3 && |l| >= 3
    requires l[0] == LowerChar(s[0]) && l[1] == LowerChar(s[1]) && l[2] == LowerChar(s[2])
    ensures l[..3] == "://" <==> s[..3] == "://"
  {
    ThreeChars(s, ':', '/', '/');
    ThreeChars(l, ':', '/', '/');
    MarkChar(s[0]);
    MarkChar(s[1]);
    MarkChar(s[2]);
  }

  lemma ThreeChars(s: string, a: char, b: char, c: char)
    requires |s| >= 3
    ensures s[..3] == [a, b, c] <==> s[0] == a && s[1] == b && s[2] == c
  {
    assert s[..3][0] == s[0] && s[..3][1] == s[1] && s[..3][2] == s[2];
  }

  lemma NotBack(users: seq<string>, url: string, name: string, scheme: Scheme, host: string, rest: string,
                port: nat, nhost: nat, npath: nat, path: string)
    requires Head(url) == (name, host + rest) && |name| < MAX_SCHEME && rest != "" && rest[0] == ':' && ':' !in host
    requires path != "" && path[0] == '/' && '/' !in host
    requires scheme == FILE ==> FromName(users, name) == Some(FILE)
    requires scheme != FILE ==> FromName(users, name) != Some(scheme)
    ensures Parse(users, url, nhost, npath) != Url(scheme, host, port, path)
  {
    var all := host + rest;
    assert all[0] == if host == "" then ':' else host[0];
    assert all[0] != '/';
  }

  lemma OtherNames(users: seq<string>, scheme: Scheme)
    requires scheme.FILE? || scheme.SIP? || scheme.SIPS? || scheme.SMB?
    ensures var name := PastedName(users, scheme); IndexOf(name, "://") == None && |name| < MAX_SCHEME
    ensures scheme.FILE? ==> FromName(users, PastedName(users, scheme)) == Some(FILE)
    ensures !scheme.FILE? ==> FromName(users, PastedName(users, scheme)) != Some(scheme)
  {
    var name := Name(users, scheme);
    assert Lower(name) == name;
    NoColonNoMark(name);
    UserMatchIsUser(users, name, 0);
  }

  lemma {:induction false} UserMatchIsUser(users: seq<string>, name: string, k: nat)
    ensures UserMatch(users, name, k).Some? ==> UserMatch(users, name, k).value.USER?
    decreases |users| - k
  {
    if k < |users| { UserMatchIsUser(users, name, k + 1); }
  }

  // ---- Parsing again what was parsed ----

  lemma {:induction false} HostHasNoMark(s: string)
    ensures ':' !in s[..HostEnd(s)] && '/' !in s[..HostEnd(s)]
  {
    if HostEnd(s) > 0 {
      HostHasNoMark(s[1..]);
      assert s[..HostEnd(s)] == [s[0]] + s[1..][..HostEnd(s[1..])];
    }
  }

  // What an accepted URL with a host is made of.
  lemma {:induction false} ParsedParts(users: seq<string>, url: string, nhost: nat, npath: nat)
    requires Parse(users, url, nhost, npath).Url? && Parse(users, url, nhost, npath).scheme != FILE
    ensures var u := Parse(users, url, nhost, npath);
      && ':' !in u.host && '/' !in u.host && |u.host| < nhost
      && u.port < 0x10000
      && u.path != "" && u.path[0] == '/' && (|u.path| < npath || u.path == "/")
  {
    var rest := Head(url).1;
    HostHasNoMark(rest);
    assert Parse(users, url, nhost, npath)
        == WithPort(FromName(users, Head(url).0).value, rest[..HostEnd(rest)], rest[HostEnd(rest)..], npath);
  }

  // The schemes whose printed name is found again.
  predicate ComesBack(users: seq<string>, scheme: Scheme) {
    || InBoth(scheme)
    || (scheme.USER? && scheme.i < |users| && users[scheme.i] != "" && Builtin(users[scheme.i]) == None
        && forall j :: 0 <= j < scheme.i ==> !Matches(users[scheme.i], users[j]))
  }

  lemma {:induction false} PrefixNoMark(s: string, t: string)
    requires t <= s && IndexOf(s, "://") == None
    ensures IndexOf(t, "://") == None
  {
    if |t| >= 3 {
      assert t[..3] == s[..3];
      PrefixNoMark(s[1..], t[1..]);
    } else if t != "" {
      assert IndexOf(t[1..], "://") == None;
    }
  }

  // What stands before the first "://" has none in it.
  lemma {:induction false} BeforeMark(s: string)
    requires IndexOf(s, "://").Some?
    ensures IndexOf(s, "://").value + 3 <= |s| && IndexOf(s[..IndexOf(s, "://").value], "://") == None
  {
    IndexOfFits(s, "://");
    var i := IndexOf(s, "://").value;
    if i > 0 {
      BeforeMark(s[1..]);
      assert s[..i][1..] == s[1..][..i - 1];
      assert i >= 3 ==> s[..i][..3] == s[..3];
    }
  }

  lemma HeadHasNoMark(url: string)
    ensures IndexOf(Head(url).0, "://") == None
  {
    if IndexOf(url, "://").Some? { BeforeMark(url); } else { NoColonNoMark("http"); }
  }

  lemma {:induction false} UserMatchMatches(users: seq<string>, name: string, k: nat)
    ensures var m := UserMatch(users, name, k);
      m.Some? ==> m.value.USER? && k <= m.value.i < |users| && Matches(name, users[m.value.i])
    decreases |users| - k
  {
    if k < |users| { UserMatchMatches(users, name, k + 1); }
  }

  // The printed name of a scheme that was found under some name without "://".
  lemma {:induction false} PrintedName(users: seq<string>, name: string, scheme: Scheme)
    requires FromName(users, name) == Some(scheme) && scheme != FILE && IndexOf(name, "://") == None
    requires scheme.USER? ==> forall j :: 0 <= j < |users| ==> |users[j]| < MAX_SCHEME
    ensures var printed := PastedName(users, scheme);
      && |printed| < MAX_SCHEME && IndexOf(printed, "://") == None
      && (FromName(users, printed) == Some(scheme) <==> ComesBack(users, scheme))
  {
    if scheme.USER? {
      UserMatchMatches(users, name, 0);
      var user := users[scheme.i];
      assert PastedName(users, scheme) == Lower(user);
      MarkInLower(name);
      PrefixNoMark(Lower(name), Lower(user));
      RegisteredNameFound(users, scheme.i);
    } else if InBoth(scheme) {
      NameFound(users, scheme);
    } else {
      OtherNames(users, scheme);
    }
  }

  // Pasting the parts of an accepted URL and parsing the result gives them back if and only if the
  // scheme's printed name is found again and the port is not 0.
  lemma {:induction false} ParsePasteParse(users: seq<string>, url: string, nhost: nat, npath: nat)
    requires Parse(users, url, nhost, npath).Url? && npath >= 2
    requires Parse(users, url, nhost, npath).scheme.USER? ==> forall j :: 0 <= j < |users| ==> |users[j]| < MAX_SCHEME
    ensures var u := Parse(users, url, nhost, npath);
      Parse(users, Pasted(users, u.scheme, u.host, u.port, u.path), nhost, npath) == u <==>
        ComesBack(users, u.scheme) && u.port != 0
  {
    var u := Parse(users, url, nhost, npath);
    if u.scheme == FILE {
      FileNotBack(users, url, nhost, npath);
    } else {
      ParsedParts(users, url, nhost, npath);
      HeadHasNoMark(url);
      ParsedScheme(users, url, nhost, npath);
      PrintedName(users, Head(url).0, u.scheme);
      PastedBack(users, u, nhost, npath);
    }
  }

  lemma ParsedScheme(users: seq<string>, url: string, nhost: nat, npath: nat)
    requires Parse(users, url, nhost, npath).Url?
    ensures FromName(users, Head(url).0) == Some(Parse(users, url, nhost, npath).scheme)
  {
  }

  // What becomes of the parts, given what becomes of the name.
  lemma PastedBack(users: seq<string>, u: Parsed, nhost: nat, npath: nat)
    requires u.Url? && u.scheme != FILE && u.port < 0x10000 && npath >= 2
    requires ':' !in u.host && '/' !in u.host && |u.host| < nhost
    requires u.path != "" && u.path[0] == '/' && (|u.path| < npath || u.path == "/")
    requires var name := PastedName(users, u.scheme); |name| < MAX_SCHEME && IndexOf(name, "://") == None
    ensures Parse(users, Pasted(users, u.scheme, u.host, u.port, u.path), nhost, npath) == u <==>
      FromName(users, PastedName(users, u.scheme)) == Some(u.scheme) && u.port != 0
  {
    var name := PastedName(users, u.scheme);
    var port, path := PortFor(name, u.port), u.path[1..];
    assert "/" + path == u.path;
    if FromName(users, name) == Some(u.scheme) {
      ParseParts(users, name, u.scheme, u.host, port, path, nhost, npath);
    } else {
      var rest := ":" + (Decimal(port) + ("/" + path));
      HeadOf(name, u.host + rest);
      NotBack(users, name + "://" + (u.host + rest), name, u.scheme, u.host, rest, u.port, nhost, npath, u.path);
    }
  }

  // A file URL comes back with a port in its path.
  lemma {:induction false} FileNotBack(users: seq<string>, url: string, nhost: nat, npath: nat)
    requires var u := Parse(users, url, nhost, npath); u.Url? && u.scheme == FILE
    ensures var u := Parse(users, url, nhost, npath);
      Parse(users, Pasted(users, FILE, u.host, u.port, u.path), nhost, npath) != u
  {
    var u := Parse(users, url, nhost, npath);
    var name, path := PastedName(users, FILE), StripSlash(u.path);
    var rest := ":" + (Decimal(PortFor(name, u.port)) + ("/" + path));
    OtherNames(users, FILE);
    HeadOf(name, u.host + rest);
    DecimalDigits(PortFor(name, u.port));
    assert |u.host + rest| > |u.path|;
    assert Parse(users, name + "://" + (u.host + rest), nhost, npath) == WithPath(FILE, "", 80, u.host + rest, npath);
  }

  // ---- Where the code departs from that ----

  // Port 0 asks for the scheme's port, but the one printed is never the one parsing defaults to.
  lemma DefaultPortIsInverted(users: seq<string>, scheme: Scheme, host: string, path: string, nhost: nat, npath: nat)
    requires InBoth(scheme)
    requires ':' !in host && '/' !in host && |host| < nhost && |StripSlash(path)| + 1 < npath
    ensures var u := Parse(users, Pasted(users, scheme, host, 0, path), nhost, npath);
      && u == Url(scheme, host, if scheme.HTTPS? then 80 else 443, "/" + StripSlash(path))
      && u.port != DefaultPort(scheme)
  {
    NameFound(users, scheme);
    NameOfHttps(users, scheme);
    var name := PastedName(users, scheme);
    ParseParts(users, name, scheme, host, PortFor(name, 0), StripSlash(path), nhost, npath);
  }

  lemma NameOfHttps(users: seq<string>, scheme: Scheme)
    requires InBoth(scheme)
    ensures PastedName(users, scheme) == "https" <==> scheme.HTTPS?
  {
    NameIsPasted(users, scheme);
  }

  // A URL without a scheme is taken as http for what follows its first "//", wherever that is.
  lemma SchemelessIsHttp(users: seq<string>, url: string, nhost: nat, npath: nat)
    requires IndexOf(url, "://") == None
    ensures Parse(users, url, nhost, npath) == Parse(users, "http://" + AfterSlashes(url), nhost, npath)
  {
    ParseHttp(users, AfterSlashes(url), nhost, npath);
    assert Head(url) == ("http", AfterSlashes(url));
  }

  lemma ParseHttp(users: seq<string>, rest: string, nhost: nat, npath: nat)
    ensures Parse(users, "http://" + rest, nhost, npath) == ParseFrom(users, "http", rest, nhost, npath)
  {
    NoColonNoMark("http");
    HeadOf("http", rest);
    assert "http" + "://" + rest == "http://" + rest;
  }

  // So what stands before the first "//" is lost, a host and a port or the first part of a path.
  lemma HostBeforeDoubledSlashIsLost(users: seq<string>, url: string, i: nat, nhost: nat, npath: nat)
    requires IndexOf(url, "://") == None && IndexOf(url, "//") == Some(i)
    ensures i + 2 <= |url| && Parse(users, url, nhost, npath) == Parse(users, "http://" + url[i + 2..], nhost, npath)
  {
    var after := AfterSlashes(url);
    SlashesEnd(url, i);
    SchemelessIsHttp(users, url, nhost, npath);
    assert after == url[i + 2..];
  }

  lemma SlashesEnd(url: string, i: nat)
    requires IndexOf(url, "//") == Some(i)
    ensures i + 2 <= |url| && AfterSlashes(url) == url[i + 2..]
  {
    IndexOfFits(url, "//");
  }

  // "server/a//b" is taken for the host b.
  lemma {:induction false} ServerIsLost(users: seq<string>, nhost: nat, npath: nat)
    requires nhost > 1 && npath > 1
    ensures Parse(users, "server/a" + "//" + "b", nhost, npath) == Url(HTTP, "b", 80, "/")
  {
    var url := "server/a" + "//" + "b";
    SlashesAt("server/a", "b");
    NoColonNoMark(url);
    HostBeforeDoubledSlashIsLost(users, url, 8, nhost, npath);
    assert url[8 + 2..] == "b";
    ParseHttp(users, "b", nhost, npath);
    HostAlone(users, "b", nhost, npath);
  }

  // No "//" in the text, and no '/' at its end.
  predicate SingleSlashes(s: string) {
    s == "" || ((s[0] == '/' ==> |s| > 1 && s[1] != '/') && SingleSlashes(s[1..]))
  }

  lemma {:induction false} SlashesAt(before: string, after: string)
    requires SingleSlashes(before)
    ensures IndexOf(before + "//" + after, "//") == Some(|before|)
  {
    var s := before + "//" + after;
    if before == "" {
      assert s[..2] == "//";
    } else {
      assert s[..2][0] == before[0] && (|before| > 1 ==> s[..2][1] == before[1]);
      assert s[1..] == before[1..] + "//" + after;
      SlashesAt(before[1..], after);
    }
  }

  // The path of an accepted URL is what is left after a text without '/', or "/" when nothing is.
  lemma {:induction false} PathIsTheRest(scheme: Scheme, host: string, rest: string, npath: nat) returns (c: nat)
    requires WithPort(scheme, host, rest, npath).Url?
    ensures c <= |rest| && '/' !in rest[..c]
    ensures WithPort(scheme, host, rest, npath).path == if c == |rest| then "/" else rest[c..]
  {
    if rest != "" && rest[0] == ':' {
      c := 1 + Strtoul(rest[1..]).1;
      NoSlashInPort(rest[1..]);
      assert rest[..c] == ":" + rest[1..][..c - 1];
    } else {
      c := 0;
      assert rest[0..] == rest;
    }
  }

  lemma {:induction false} SpacesAreSpaces(s: string)
    ensures forall i :: 0 <= i < Spaces(s) ==> IsSpace(s[i])
  {
    if s != "" && IsSpace(s[0]) { SpacesAreSpaces(s[1..]); }
  }

  lemma NoSlashInPort(s: string)
    ensures '/' !in s[..Strtoul(s).1]
  {
    var w := Spaces(s);
    var sign := if w < |s| && (s[w] == '+' || s[w] == '-') then 1 else 0;
    var t := s[w + sign..];
    SpacesAreSpaces(s);
    forall k | 0 <= k < Strtoul(s).1 ensures s[k] != '/' {
      if k >= w + sign {
        assert IsDigit(t[k - w - sign]) && t[k - w - sign] == s[k];
      }
    }
  }

  // The same for the host and all.
  lemma {:induction false} PathAfterHost(users: seq<string>, rest: string, nhost: nat, npath: nat) returns (c: nat)
    requires ParseFrom(users, "http", rest, nhost, npath).Url?
    ensures c <= |rest| && '/' !in rest[..c]
    ensures ParseFrom(users, "http", rest, nhost, npath).path == if c == |rest| then "/" else rest[c..]
  {
    var n := HostEnd(rest);
    HttpParts(users, rest, nhost, npath);
    HostHasNoMark(rest);
    var k := PathIsTheRest(HTTP, rest[..n], rest[n..], npath);
    c := n + k;
    NoSlashAcross(rest, n, k);
  }

  lemma NoSlashAcross(s: string, n: nat, k: nat)
    requires n + k <= |s| && '/' !in s[..n] && '/' !in s[n..][..k]
    ensures '/' !in s[..n + k] && s[n..][k..] == s[n + k..]
  {
    assert s[..n + k] == s[..n] + s[n..][..k];
  }

  lemma HttpParts(users: seq<string>, rest: string, nhost: nat, npath: nat)
    ensures ParseFrom(users, "http", rest, nhost, npath) ==
      if HostEnd(rest) >= nhost then Failed(HostTooLong)
      else WithPort(HTTP, rest[..HostEnd(rest)], rest[HostEnd(rest)..], npath)
  {
    NameFound(users, HTTP);
    assert PastedName(users, HTTP) == "http" by { assert Lower("http") == "http"; }
  }

  // A URL without a scheme is read as it would be with "http://" in front if and only if it has no
  // "//" in it.
  lemma {:induction false} SchemelessReadRightExactly(users: seq<string>, url: string, nhost: nat, npath: nat)
    requires IndexOf(url, "://") == None && Parse(users, "http://" + url, nhost, npath).Url?
    ensures Parse(users, url, nhost, npath) == Parse(users, "http://" + url, nhost, npath) <==> IndexOf(url, "//") == None
  {
    SchemelessIsHttp(users, url, nhost, npath);
    ParseHttp(users, url, nhost, npath);
    if IndexOf(url, "//").Some? {
      var i := IndexOf(url, "//").value;
      IndexOfFits(url, "//");
      SlashFound(url);
      ParseHttp(users, url[i + 2..], nhost, npath);
      LongerPath(users, url, i, nhost, npath);
    }
  }

  lemma {:induction false} SlashFound(s: string)
    requires IndexOf(s, "//").Some?
    ensures IndexOf(s, "//").value < |s| && s[IndexOf(s, "//").value] == '/'
  {
    IndexOfFits(s, "//");
    if s[..2] == "//" {
      assert s[..2][0] == s[0];
    } else {
      SlashFound(s[1..]);
    }
  }

  lemma NotBefore(s: string, c: nat, i: nat)
    requires c <= |s| && i < |s| && '/' !in s[..c] && s[i] == '/'
    ensures c <= i
  {
    assert forall k :: 0 <= k < c ==> s[..c][k] in s[..c] && s[..c][k] == s[k];
  }

  // Losing text up to a '/' shortens the path.
  lemma LongerPath(users: seq<string>, url: string, i: nat, nhost: nat, npath: nat)
    requires i + 2 <= |url| && url[i] == '/' && ParseFrom(users, "http", url, nhost, npath).Url?
    ensures ParseFrom(users, "http", url[i + 2..], nhost, npath) != ParseFrom(users, "http", url, nhost, npath)
  {
    var after := url[i + 2..];
    var c := PathAfterHost(users, url, nhost, npath);
    NotBefore(url, c, i);
    assert |ParseFrom(users, "http", url, nhost, npath).path| >= |url| - i;
    if ParseFrom(users, "http", after, nhost, npath).Url? {
      var k := PathAfterHost(users, after, nhost, npath);
    }
  }
}
