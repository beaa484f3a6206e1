/**
 URLs written out: which names are spelled how, what each form of a URL is parsed to, and which
 forms are refused. Names, ports and limits are literals here.
 */
module UrlForms {
  import opened Url

  // ---- Names ----

  // The names that are recognized, and what they mean.
  lemma Recognized(users: seq<string>)
    ensures FromName(users, "ftp") == Some(FTP) && FromName(users, "sftp") == Some(SFTP)
    ensures FromName(users, "http") == Some(HTTP) && FromName(users, "https") == Some(HTTPS)
    ensures FromName(users, "ws") == Some(WS) && FromName(users, "wss") == Some(WSS)
    ensures FromName(users, "mailto") == Some(MAILTO) && FromName(users, "ssh") == Some(SSH)
    ensures FromName(users, "dav") == Some(DAV)
    ensures FromName(users, "file") == Some(FILE) && FromName(users, "smb") == Some(SMB)
  {
    FoundAsPrinted(users, FTP);
    FoundAsPrinted(users, SFTP);
    FoundAsPrinted(users, HTTP);
    FoundAsPrinted(users, HTTPS);
    FoundAsPrinted(users, WS);
    FoundAsPrinted(users, WSS);
    FoundAsPrinted(users, MAILTO);
    FoundAsPrinted(users, SSH);
    FoundAsPrinted(users, DAV);
    FileAndSmb(users);
  }

  lemma FoundAsPrinted(users: seq<string>, scheme: Scheme)
    requires InBoth(scheme)
    ensures FromName(users, Name(users, scheme)) == Some(scheme)
  {
    NameIsPasted(users, scheme);
    NameFound(users, scheme);
  }

  lemma FileAndSmb(users: seq<string>)
    ensures FromName(users, "file") == Some(FILE) && FromName(users, "smb") == Some(SMB)
  {
    assert Lower("file") == "file" && Lower("smb") == "smb";
  }

  // The names that are printed: sip and sips too, and nothing for smb.
  lemma Printed(users: seq<string>)
    ensures Name(users, FILE) == "file" && Name(users, SMB) == "????"
    ensures Name(users, FTP) == "ftp" && Name(users, SFTP) == "sftp"
    ensures Name(users, HTTP) == "http" && Name(users, HTTPS) == "https"
    ensures Name(users, WS) == "ws" && Name(users, WSS) == "wss"
    ensures Name(users, SIP) == "sip" && Name(users, SIPS) == "sips"
    ensures Name(users, MAILTO) == "mailto" && Name(users, SSH) == "ssh" && Name(users, DAV) == "dav"
  {
  }

  lemma LowerIsAscii(c: char)
    ensures LowerChar(c) as int == c as int + if 65 <= c as int <= 90 then 32 else 0
  {
  }

  // Only the case of letters may differ between a name and what is recognized for it.
  lemma {:induction false} CaseDoesNotMatter(users: seq<string>, a: string, b: string)
    requires Lower(a) == Lower(b)
    ensures FromName(users, a) == FromName(users, b)
  {
    SameUser(users, a, b, 0);
  }

  lemma {:induction false} SameUser(users: seq<string>, a: string, b: string, k: nat)
    requires Lower(a) == Lower(b)
    ensures UserMatch(users, a, k) == UserMatch(users, b, k)
    decreases |users| - k
  {
    if k < |users| { SameUser(users, a, b, k + 1); }
  }

  // A registered name stands for every name that begins with it, whatever its case, unless that is a
  // built-in name; and for no shorter one.
  lemma {:induction false} PrefixFound(users: seq<string>, name: string)
    requires users != [] && users[0] != "" && Builtin(name) == None
    ensures FromName(users, name) == Some(USER(0)) <==> |users[0]| <= |name| && Lower(users[0]) == Lower(name[..|users[0]|])
  {
    var user := users[0];
    if |user| <= |name| { LowerOfPrefix(name, |user|); }
    if !Matches(name, user) { NotTheFirst(users, name); }
  }

  lemma {:induction false} LowerOfPrefix(s: string, n: nat)
    requires n <= |s|
    ensures Lower(s[..n]) == Lower(s)[..n]
  {
  }

  lemma {:induction false} NotTheFirst(users: seq<string>, name: string)
    requires users != [] && !Matches(name, users[0])
    ensures UserMatch(users, name, 0) != Some(USER(0))
  {
    LaterMatch(users, name, 1);
  }

  lemma {:induction false} LaterMatch(users: seq<string>, name: string, k: nat)
    ensures UserMatch(users, name, k).Some? ==> UserMatch(users, name, k).value.USER? && UserMatch(users, name, k).value.i >= k
    decreases |users| - k
  {
    if k < |users| { LaterMatch(users, name, k + 1); }
  }

  // There are four places, of seven characters each.
  lemma FourPlaces(table: SchemeTable)
    requires table.Valid()
    ensures |table.users| == 4 && forall i :: 0 <= i < 4 ==> |table.users[i]| <= 7
  {
  }

  // What is kept of a name that is too long, and of a pasted URL: the front, as much as there is room for.
  lemma CutIsFront(s: string, n: nat)
    ensures Cut(s, n) <= s && |Cut(s, n)| <= n
    ensures |s| <= n ==> Cut(s, n) == s
    ensures |s| > n ==> |Cut(s, n)| == n
  {
  }

  // A buffer that was filled holds the string and a terminator, and behind them what it held before.
  lemma FilledBuffer(was: seq<char>, s: string, k: nat)
    requires |s| < |was| && k < |was|
    ensures Overwritten(was, s)[k] == if k < |s| then s[k] else if k == |s| then '\0' else was[k]
  {
  }

  // ---- Ports ----

  // The port of a URL that names none.
  function UsualPort(scheme: Scheme): nat {
    if scheme.FTP? then 21 else if scheme.SFTP? then 23 else if scheme.HTTPS? then 443 else if scheme.MAILTO? then 25 else 80
  }

  predicate AllDigits(d: string) {
    d != "" && forall i :: 0 <= i < |d| ==> '0' <= d[i] <= '9'
  }

  // What may follow digits that are to be read up to their end.
  predicate NoDigit(rest: string) {
    rest == "" || !('0' <= rest[0] <= '9')
  }

  lemma DigitsRead(d: string, rest: string)
    requires AllDigits(d) && NoDigit(rest)
    ensures Digits(d + rest) == |d| && (d + rest)[..|d|] == d
  {
    DigitsOfPrefix(d, rest);
  }

  // strtoul: digits, digits after a plus, digits after a minus; a value too large is the largest.
  lemma {:induction false} NumbersRead(d: string, rest: string)
    requires AllDigits(d) && NoDigit(rest)
    ensures Strtoul(d + rest) == (if Value(d) <= 0xFFFF_FFFF_FFFF_FFFF then Value(d) else 0xFFFF_FFFF_FFFF_FFFF, |d|)
  {
    var s := d + rest;
    DigitsRead(d, rest);
    assert s[0] == d[0] && s[0..] == s && Spaces(s) == 0;
  }

  lemma {:induction false} SignedNumbersRead(sign: char, d: string, rest: string)
    requires AllDigits(d) && NoDigit(rest) && (sign == '+' || sign == '-')
    ensures Strtoul([sign] + (d + rest)) ==
      (if Value(d) > 0xFFFF_FFFF_FFFF_FFFF then 0xFFFF_FFFF_FFFF_FFFF
       else if sign == '-' && Value(d) > 0 then 0x1_0000_0000_0000_0000 - Value(d)
       else Value(d), |d| + 1)
  {
    var t := [sign] + (d + rest);
    DigitsRead(d, rest);
    assert t[0] == sign && t[1..] == d + rest && Spaces(t) == 0;
  }

  // White space before a number is skipped and counted; without a digit nothing is read.
  lemma {:induction false} SpacesSkipped(c: char, s: string)
    requires c == ' ' || 9 <= c as int <= 13
    ensures Strtoul([c] + s) == if Strtoul(s).1 == 0 then (0, 0) else (Strtoul(s).0, Strtoul(s).1 + 1)
  {
    var t := [c] + s;
    White(c);
    assert t[1..] == s && Spaces(t) == 1 + Spaces(s);
    var w := Spaces(s);
    var sign := if w < |s| && (s[w] == '+' || s[w] == '-') then 1 else 0;
    assert w < |s| ==> t[w + 1] == s[w];
    assert t[w + 1 + sign..] == s[w + sign..];
  }

  lemma White(c: char)
    ensures IsSpace(c) <==> c == ' ' || 9 <= c as int <= 13
  {
    assert '\t' as int == 9 && '\n' as int == 10 && '\r' as int == 13;
  }

  lemma NothingRead(s: string)
    requires s == "" || !(s[0] in {' ', '+', '-'} || 9 <= s[0] as int <= 13 || '0' <= s[0] <= '9')
    ensures Strtoul(s) == (0, 0)
  {
    assert s[0..] == s;
  }

  // Decimal numerals have no leading zero.
  lemma {:induction false} NoLeadingZero(n: nat)
    requires n > 0
    ensures Decimal(n) != "" && Decimal(n)[0] != '0'
  {
    if n >= 10 { NoLeadingZero(n / 10); }
  }

  // ---- Forms of a URL ----

  predicate PlainHost(host: string) {
    ':' !in host && '/' !in host
  }

  // A name that stands for a scheme with a host.
  predicate HostScheme(users: seq<string>, name: string, scheme: Scheme) {
    IndexOf(name, "://") == None && |name| < 8 && FromName(users, name) == Some(scheme) && scheme != FILE
  }

  lemma {:induction false} AfterHost(users: seq<string>, name: string, scheme: Scheme, host: string, rest: string, nhost: nat, npath: nat)
    requires HostScheme(users, name, scheme) && PlainHost(host)
    requires rest == "" || rest[0] == ':' || rest[0] == '/'
    ensures Parse(users, name + "://" + (host + rest), nhost, npath) ==
      if |host| < nhost then WithPort(scheme, host, rest, npath) else Failed(HostTooLong)
  {
    HeadOf(name, host + rest);
    if rest == "" {
      assert host + rest == host;
      HostEndAlone(host);
    } else {
      HostEndIs(host, rest);
    }
    assert (host + rest)[..|host|] == host && (host + rest)[|host|..] == rest;
  }

  // Without a port the scheme's own is used; the path is what follows the host, or "/".
  lemma HostAndPath(users: seq<string>, name: string, scheme: Scheme, host: string, path: string, nhost: nat, npath: nat)
    requires HostScheme(users, name, scheme) && PlainHost(host) && |host| < nhost
    ensures |path| + 1 < npath ==>
      Parse(users, name + "://" + (host + ("/" + path)), nhost, npath) == Url(scheme, host, UsualPort(scheme), "/" + path)
    ensures npath > 0 ==> Parse(users, name + "://" + (host + ""), nhost, npath) == Url(scheme, host, UsualPort(scheme), "/")
  {
    NotPrintedOnly(users, name, scheme);
    HostAndRest(users, name, scheme, host, "/" + path, nhost, npath);
    HostAndRest(users, name, scheme, host, "", nhost, npath);
  }

  lemma HostAndRest(users: seq<string>, name: string, scheme: Scheme, host: string, rest: string, nhost: nat, npath: nat)
    requires HostScheme(users, name, scheme) && PlainHost(host) && |host| < nhost
    requires scheme != SIP && scheme != SIPS && (rest == "" || rest[0] == '/')
    ensures |rest| < npath ==>
      Parse(users, name + "://" + (host + rest), nhost, npath) == Url(scheme, host, UsualPort(scheme), if rest == "" then "/" else rest)
  {
    AfterHost(users, name, scheme, host, rest, nhost, npath);
    WithoutPort(scheme, host, rest, npath);
  }

  lemma WithoutPort(scheme: Scheme, host: string, rest: string, npath: nat)
    requires scheme != SIP && scheme != SIPS && (rest == "" || rest[0] == '/')
    ensures |rest| < npath ==>
      WithPort(scheme, host, rest, npath) == Url(scheme, host, UsualPort(scheme), if rest == "" then "/" else rest)
  {
  }

  // sip and sips are never found, so their ports are never used.
  lemma NotPrintedOnly(users: seq<string>, name: string, scheme: Scheme)
    requires FromName(users, name) == Some(scheme)
    ensures scheme != SIP && scheme != SIPS
  {
    UserMatchIsUser(users, name, 0);
  }

  // A port of up to five digits is taken as it stands, reduced to 16 bits; one of more is refused.
  lemma {:induction false} HostAndPort(users: seq<string>, name: string, scheme: Scheme, host: string, d: string, path: string, nhost: nat, npath: nat)
    requires HostScheme(users, name, scheme) && PlainHost(host) && |host| < nhost
    requires AllDigits(d) && |path| + 1 < npath
    ensures Parse(users, name + "://" + (host + (":" + (d + ("/" + path)))), nhost, npath) ==
      if |d| > 5 then Failed(BadPort) else Url(scheme, host, Value(d) % 0x10000, "/" + path)
  {
    var tail := "/" + path;
    var rest := ":" + (d + tail);
    AfterHost(users, name, scheme, host, rest, nhost, npath);
    NumbersRead(d, tail);
    assert rest[1..] == d + tail && rest[1 + |d|..] == tail;
    if |d| <= 5 { SmallValue(d); }
  }

  lemma {:induction false} SmallValue(d: string)
    requires forall i :: 0 <= i < |d| ==> IsDigit(d[i])
    ensures |d| == 0 ==> Value(d) == 0
    ensures |d| <= 1 ==> Value(d) < 10
    ensures |d| <= 2 ==> Value(d) < 100
    ensures |d| <= 3 ==> Value(d) < 1000
    ensures |d| <= 4 ==> Value(d) < 10000
    ensures |d| <= 5 ==> Value(d) < 100000
  {
    if d != "" {
      assert IsDigit(d[|d| - 1]);
      SmallValue(d[..|d| - 1]);
    }
  }

  // Forms that are refused: other text after the port, a host or a path too long for its buffer.
  lemma {:induction false} RefusedAfterHost(users: seq<string>, name: string, scheme: Scheme, host: string, d: string, rest: string, nhost: nat, npath: nat)
    requires HostScheme(users, name, scheme) && PlainHost(host)
    ensures |host| >= nhost ==> Parse(users, name + "://" + (host + ("/" + rest)), nhost, npath) == Failed(HostTooLong)
    ensures |host| < nhost && |rest| + 1 >= npath ==>
      Parse(users, name + "://" + (host + ("/" + rest)), nhost, npath) == Failed(PathTooLong)
    ensures |host| < nhost && AllDigits(d) && |d| <= 5 && NoDigit(rest) && rest != "" && rest[0] != '/' ==>
      Parse(users, name + "://" + (host + (":" + (d + rest))), nhost, npath) == Failed(BadPath)
  {
    AfterHost(users, name, scheme, host, "/" + rest, nhost, npath);
    AfterHost(users, name, scheme, host, ":" + (d + rest), nhost, npath);
    if AllDigits(d) && NoDigit(rest) {
      NumbersRead(d, rest);
      var all := ":" + (d + rest);
      assert all[1..] == d + rest && all[1 + |d|..] == rest;
    }
  }

  // A name of eight characters or more, or one that stands for nothing.
  lemma RefusedName(users: seq<string>, name: string, rest: string, nhost: nat, npath: nat)
    requires IndexOf(name, "://") == None
    ensures |name| >= 8 ==> Parse(users, name + "://" + rest, nhost, npath) == Failed(SchemeTooLong)
    ensures |name| < 8 && FromName(users, name) == None ==> Parse(users, name + "://" + rest, nhost, npath) == Failed(UnknownScheme)
  {
    HeadOf(name, rest);
  }

  // A file has no host and no port of its own: what follows the slashes is the path.
  lemma FileForm(users: seq<string>, path: string, nhost: nat, npath: nat)
    ensures Parse(users, "file" + "://" + path, nhost, npath) ==
      if |path| >= npath then Failed(PathTooLong) else Url(FILE, "", 80, if path == "" then "/" else path)
  {
    FileIsName();
    HeadOf("file", path);
    FileAndSmb(users);
  }

  lemma FileIsName()
    ensures IndexOf("file", "://") == None && |"file"| == 4
  {
    NoColonNoMark("file");
  }

  // What a refused URL leaves: no path, and of the other parts what was known by then.
  lemma {:induction false} RefusedLeaves(users: seq<string>, url: string, nhost: nat, npath: nat)
    requires Parse(users, url, nhost, npath).Failed?
    ensures var left, fault := Left(users, url, nhost, npath), Parse(users, url, nhost, npath).fault;
      && left.path == ""
      && (fault in {SchemeTooLong, UnknownScheme} ==> left == Parts(HTTP, "", 80, ""))
      && (fault !in {SchemeTooLong, UnknownScheme} ==> FromName(users, Head(url).0) == Some(left.scheme))
      && (fault == HostTooLong ==> left.host == "" && left.port == 80)
      && (fault in {BadPort, BadPath} ==> left.host == Head(url).1[..HostEnd(Head(url).1)])
      && (fault == BadPort ==> left.port == 80)
  {
    var (name, rest) := Head(url);
    if |name| < 8 && FromName(users, name).Some? && FromName(users, name) != Some(FILE) && HostEnd(rest) < nhost {
      RefusedRest(FromName(users, name).value, rest[..HostEnd(rest)], rest[HostEnd(rest)..], npath);
    }
  }

  lemma RefusedRest(scheme: Scheme, host: string, rest: string, npath: nat)
    ensures WithPort(scheme, host, rest, npath).Failed? ==>
      WithPort(scheme, host, rest, npath).fault in {BadPort, BadPath, PathTooLong}
    ensures WithPort(scheme, host, rest, npath) == Failed(BadPort) ==> PortLeft(scheme, rest) == 80
  {
  }

  // A pasted URL, letter for letter: the name, "://", the host, ':' and the port without leading zeros,
  // and the path with one slash in front.
  lemma PastedForm(users: seq<string>, scheme: Scheme, host: string, port: nat, path: string) returns (d: string)
    requires InBoth(scheme) && port > 0
    ensures AllDigits(d) && d[0] != '0' && Value(d) == port
    ensures var slashed := if path != "" && path[0] == '/' then path else "/" + path;
      Pasted(users, scheme, host, port, path) == Name(users, scheme) + "://" + (host + (":" + (d + slashed)))
  {
    d := Decimal(port);
    DecimalDigits(port);
    NoLeadingZero(port);
    NameIsPasted(users, scheme);
    if path != "" && path[0] == '/' { assert "/" + path[1..] == path; }
  }
}
