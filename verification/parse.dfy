/** parse.go: reading the target address `[user[:password]@]host[:port]`. */
module Parse {
  import opened Wrappers
  import opened Strings
  import opened Strconv
  import opened Constants

  /** The parsed target. Absent user name or password stay distinguishable from empty ones. */
  datatype Server = Server(username: Option<string>, password: Option<string>, host: string, port: int)

  datatype ParseError = InvalidPort(portText: string)

  /** The server part of an address: the text after the first `@`, or all of it. */
  function ServerPart(connStr: string): string
  {
    var splits := SplitN2(connStr, '@');
    splits[|splits| - 1]
  }

  /** The user name and password of `parseServer` (parse.go, first half). */
  function ParseUserInfo(connStr: string): (r: (Option<string>, Option<string>))
    // without `@` there is no user information at all
    ensures '@' !in connStr ==> r.0.None? && r.1.None?
    // with `@`, the text before the first `@` is `user` or `user:password`, split at its first `:`
    ensures '@' in connStr ==>
      && r.0.Some? && ':' !in r.0.value && '@' !in r.0.value
      && (r.1.Some? ==> '@' !in r.1.value)
      && connStr == UserText(r.0, r.1) + ServerPart(connStr)
  {
    var userAndServer := SplitN2(connStr, '@');
    if |userAndServer| > 1 then
      var userInfo := SplitN2(userAndServer[0], ':');
      UserTextSplits(userAndServer[0], userAndServer[1]);
      (Some(userInfo[0]), if |userInfo| > 1 then Some(userInfo[1]) else None)
    else (None, None)
  }

  /** The text before the first `@`, split at its first `:` into a user name
      and an optional password, spells itself again. */
  lemma UserTextSplits(user: string, server: string)
    requires '@' !in user
    ensures
      var userInfo := SplitN2(user, ':');
      var password := if |userInfo| > 1 then Some(userInfo[1]) else None;
      && ':' !in userInfo[0] && '@' !in userInfo[0]
      && (password.Some? ==> '@' !in password.value)
      && UserText(Some(userInfo[0]), password) + server == user + "@" + server
  {
    var userInfo := SplitN2(user, ':');
    if |userInfo| > 1 {
      var name := userInfo[0];
      var password := userInfo[1];
      assert UserText(Some(name), Some(password)) == name + (":" + password) + "@";
      ConcatAssoc(name, ":", password);
    } else {
      assert UserText(Some(user), None) == user + "" + "@";
    }
  }

  /** An unbracketed server part read as `host` and `port`: the host is the text
      before the first `:`, and the port the number after it, or 22 without a `:`. */
  predicate PlainRead(serverStr: string, host: string, port: int)
  {
    && ':' !in host
    && (serverStr == host ==> port == DefaultServerPort)
    && (serverStr != host ==> |serverStr| > |host| && serverStr[..|host| + 1] == host + ":" && Atoi(serverStr[|host| + 1..]) == Some(port))
  }

  /** A bracketed server part read as `host` and `port`: the host runs up to and
      including the first `]`, and the port is the number one byte after it.
      When nothing follows the host, the port is 22 and the host is the whole
      server part, with a `]` added when the part has none. */
  predicate BracketedRead(serverStr: string, host: string, port: int)
  {
    && |host| >= 2 && host[0] == '[' && host[|host| - 1] == ']'
    && ']' !in host[..|host| - 1]
    && (|serverStr| <= |host| ==> port == DefaultServerPort && (serverStr == host || serverStr + "]" == host))
    && (|serverStr| > |host| ==> serverStr[..|host|] == host && Atoi(serverStr[|host| + 1..]) == Some(port))
  }

  /** The text after the first `:` of an unbracketed server part is not a number. */
  predicate PlainPortInvalid(serverStr: string)
  {
    ':' in serverStr && !IsAtoiSyntax(serverStr[IndexOfCharFrom(serverStr, ':', 0) + 1..])
  }

  /** The text one byte after the first `]` of a bracketed server part is not a number. */
  predicate BracketedPortInvalid(serverStr: string)
  {
    var e := IndexOfCharFrom(serverStr, ']', 0);
    e + 1 < |serverStr| && !IsAtoiSyntax(serverStr[e + 2..])
  }

  /** The host and port of `parseServer` (parse.go, second half), from a non-empty
      server part. The only error is a port that is not a number. */
  function ParseHostPort(serverStr: string): (r: Result<(string, int), ParseError>)
    requires serverStr != ""
    ensures r.Success? && serverStr[0] != '[' ==> PlainRead(serverStr, r.value.0, r.value.1)
    ensures r.Success? && serverStr[0] == '[' ==> BracketedRead(serverStr, r.value.0, r.value.1)
    ensures r.Failure? && serverStr[0] != '[' ==> PlainPortInvalid(serverStr)
    ensures r.Failure? && serverStr[0] == '[' ==> BracketedPortInvalid(serverStr)
  {
    if serverStr[0] == '[' then ParseBracketed(serverStr) else ParsePlain(serverStr)
  }

  /** An IPv6 literal such as `[fe80::1]:22`; the brackets stay in the host. */
  function ParseBracketed(serverStr: string): (r: Result<(string, int), ParseError>)
    requires serverStr != "" && serverStr[0] == '['
    ensures r.Success? ==> BracketedRead(serverStr, r.value.0, r.value.1)
    ensures r.Failure? ==> BracketedPortInvalid(serverStr)
  {
    var serverInfo := SplitN2(serverStr, ']');
    var host := serverInfo[0] + "]";
    BracketedParts(serverStr);
    if |serverInfo| > 1 && serverInfo[1] != "" then
      match Atoi(serverInfo[1][1..])
      case None => Failure(InvalidPort(serverInfo[1]))
      case Some(port) => Success((host, port))
    else
      Success((host, DefaultServerPort))
  }

  /** The host of a bracketed address is the text up to its first `]`; a
      non-empty remainder lies one byte after it. */
  lemma BracketedParts(serverStr: string)
    requires serverStr != "" && serverStr[0] == '['
    ensures
      var serverInfo := SplitN2(serverStr, ']');
      var host := serverInfo[0] + "]";
      && |host| >= 2 && host[0] == '[' && host[|host| - 1] == ']'
      && host[..|host| - 1] == serverInfo[0]
      && (|serverInfo| > 1 && serverInfo[1] != "" ==>
            |serverStr| > |host| && serverStr[..|host|] == host && serverStr[|host| + 1..] == serverInfo[1][1..])
      && (!(|serverInfo| > 1 && serverInfo[1] != "") ==>
            |serverStr| <= |host| && (serverStr == host || serverStr + "]" == host))
  {
    var serverInfo := SplitN2(serverStr, ']');
    var host := serverInfo[0] + "]";
    assert host[..|host| - 1] == serverInfo[0];
    if |serverInfo| > 1 {
      assert serverStr == host + serverInfo[1];
      assert serverStr[..|host|] == host;
      if serverInfo[1] != "" {
        assert serverStr[|host| + 1..] == serverInfo[1][1..];
      } else {
        assert serverStr == host;
      }
    } else {
      assert serverInfo[0] == serverStr;
    }
  }

  /** A host, optionally followed by `:` and a port. */
  function ParsePlain(serverStr: string): (r: Result<(string, int), ParseError>)
    ensures r.Success? ==> PlainRead(serverStr, r.value.0, r.value.1)
    ensures r.Failure? ==> PlainPortInvalid(serverStr)
  {
    var serverInfo := SplitN2(serverStr, ':');
    if |serverInfo| > 1 then
      match Atoi(serverInfo[1])
      case None => Failure(InvalidPort(serverInfo[1]))
      case Some(port) => Success((serverInfo[0], port))
    else
      Success((serverInfo[0], DefaultServerPort))
  }

  /** `parseServer`. The source indexes the first byte of the server part, so an
      empty server part (`"user@"`, `""`) panics; that is its precondition here.
      A port that is not a number is the only error. */
  function ParseServer(connStr: string): (r: Result<Server, ParseError>)
    requires ServerPart(connStr) != ""
    ensures r.Success? <==> ParseHostPort(ServerPart(connStr)).Success?
    ensures r.Success? ==>
      && (r.value.username, r.value.password) == ParseUserInfo(connStr)
      && (r.value.host, r.value.port) == ParseHostPort(ServerPart(connStr)).value
  {
    var (username, password) := ParseUserInfo(connStr);
    match ParseHostPort(ServerPart(connStr))
    case Failure(e) => Failure(e)
    case Success((host, port)) => Success(Server(username, password, host, port))
  }

  function UserText(username: Option<string>, password: Option<string>): string
  {
    if username.None? then ""
    else username.value + (if password.Some? then ":" + password.value else "") + "@"
  }

  /** The `user[:password]@` text of a parsed server, empty when there is no user. */
  function UserInfo(s: Server): string
  {
    UserText(s.username, s.password)
  }

  /** The address spelling of a server, always with its port. */
  function FormatServer(s: Server): string
  {
    UserInfo(s) + s.host + ":" + Itoa(s.port)
  }

  /** Servers whose spelling `ParseServer` can read back: a password only with a
      user name, no `@` or `:` in the user name, no `@` in the password or host,
      and a host that is either free of `:` or a single bracketed literal. */
  predicate Spellable(s: Server)
  {
    && (s.password.Some? ==> s.username.Some?)
    && (s.username.Some? ==> ':' !in s.username.value && '@' !in s.username.value)
    && (s.password.Some? ==> '@' !in s.password.value)
    && '@' !in s.host
    && SpellableHost(s.host)
  }

  /** A host that reads back from `host:port`: a single bracketed literal, or free of `:`. */
  predicate SpellableHost(host: string)
  {
    if |host| > 0 && host[0] == '[' then
      |host| >= 2 && host[|host| - 1] == ']' && ']' !in host[..|host| - 1]
    else ':' !in host
  }

  /** The user information of a spelled server reads back, and the server part is the rest. */
  lemma {:induction false} UserInfoRoundTrip(s: Server, hostPort: string)
    requires Spellable(s)
    requires '@' !in hostPort
    ensures ServerPart(UserInfo(s) + hostPort) == hostPort
    ensures ParseUserInfo(UserInfo(s) + hostPort) == (s.username, s.password)
  {
    var text := UserInfo(s) + hostPort;
    if s.username.Some? {
      var user := s.username.value + (if s.password.Some? then ":" + s.password.value else "");
      assert '@' !in user;
      assert text == user + "@" + hostPort;
      assert text[|user|] == '@';
      assert forall k :: 0 <= k < |user| ==> text[k] == user[k];
      assert IndexOfCharFrom(text, '@', 0) == |user|;
      assert text[..|user|] == user;
      assert text[|user| + 1..] == hostPort;
      if s.password.Some? {
        var name := s.username.value;
        assert user[|name|] == ':';
        assert forall k :: 0 <= k < |name| ==> user[k] == name[k];
        assert IndexOfCharFrom(user, ':', 0) == |name|;
        assert user[..|name|] == name;
        assert user[|name| + 1..] == s.password.value;
      } else {
        assert user == s.username.value;
      }
    } else {
      assert text == hostPort;
    }
  }

  /** A bracketed host with nothing after it reads as itself, on port 22. */
  lemma BracketedNoPort(inside: string)
    requires ']' !in inside
    ensures ParseHostPort("[" + inside + "]") == Success(("[" + inside + "]", DefaultServerPort))
  {
    var s := "[" + inside + "]";
    var e := IndexOfCharFrom(s, ']', 0);
    assert forall k :: 0 <= k < |s| - 1 ==> s[k] != ']' by {
      assert forall k :: 1 <= k < |s| - 1 ==> s[k] == inside[k - 1];
    }
    assert s[|s| - 1] == ']';
    assert e == |s| - 1;
    var r := ParseBracketed(s);
    assert !BracketedPortInvalid(s);
    var host := r.value.0;
    assert |s| <= |host|;
    assert s + "]" != host;
  }

  /** A bracketed literal spelled with its port reads back as that literal and port. */
  lemma BracketedRoundTrip(host: string, port: int)
    requires |host| >= 2 && host[0] == '[' && host[|host| - 1] == ']' && ']' !in host[..|host| - 1]
    ensures ParseHostPort(host + ":" + Itoa(port)) == Success((host, port))
  {
    var inside := host[..|host| - 1];
    var portText := ":" + Itoa(port);
    AtoiItoa(port);
    ConcatAssoc(host, ":", Itoa(port));
    BracketedSplits(host, portText);
    SplitAtFirst(inside, ']', portText);
    assert portText[1..] == Itoa(port);
    BracketedParses(host + portText, inside, portText, port);
  }

  /** `ParseBracketed` on `inside ] after`, where `after` is `:` and a number. */
  lemma BracketedParses(serverStr: string, inside: string, after: string, port: int)
    requires serverStr != "" && serverStr[0] == '['
    requires SplitN2(serverStr, ']') == [inside, after]
    requires after != "" && Atoi(after[1..]) == Some(port)
    ensures ParseBracketed(serverStr) == Success((inside + "]", port))
  {
  }

  /** A bracketed literal followed by more text is its inside, `]` and that text. */
  lemma BracketedSplits(host: string, after: string)
    requires |host| >= 2 && host[0] == '[' && host[|host| - 1] == ']'
    ensures host + after == host[..|host| - 1] + [']'] + after
    ensures host[..|host| - 1] + "]" == host
    ensures (host + after)[0] == '['
  {
    CutAround(host, |host| - 1);
    assert host[|host| - 1..] == [']'];
  }

  /** A host free of `:` spelled with its port reads back as that host and port. */
  lemma PlainRoundTrip(host: string, port: int)
    requires !(|host| > 0 && host[0] == '[') && ':' !in host
    ensures ParseHostPort(host + ":" + Itoa(port)) == Success((host, port))
  {
    AtoiItoa(port);
    SplitAtFirst(host, ':', Itoa(port));
    assert host + ":" + Itoa(port) == host + [':'] + Itoa(port);
  }

  /** A spellable host with its port reads back as that host and port. */
  lemma HostPortRoundTrip(host: string, port: int)
    requires SpellableHost(host)
    ensures ParseHostPort(host + ":" + Itoa(port)) == Success((host, port))
  {
    if |host| > 0 && host[0] == '[' {
      BracketedRoundTrip(host, port);
    } else {
      PlainRoundTrip(host, port);
    }
  }

  /** Parsing the spelling of a server gives the server back, whatever the sign of its port. */
  lemma ParseFormat(s: Server)
    requires Spellable(s)
    ensures ServerPart(FormatServer(s)) == s.host + ":" + Itoa(s.port)
    ensures ParseServer(FormatServer(s)) == Success(s)
  {
    var hostPort := s.host + ":" + Itoa(s.port);
    ItoaShape(s.port);
    assert '@' !in hostPort;
    assert FormatServer(s) == UserInfo(s) + hostPort;
    UserInfoRoundTrip(s, hostPort);
    HostPortRoundTrip(s.host, s.port);
    ParsedServer(FormatServer(s), s);
  }

  /** `ParseServer` puts together what its two halves read. */
  lemma ParsedServer(connStr: string, s: Server)
    requires ServerPart(connStr) != ""
    requires ParseUserInfo(connStr) == (s.username, s.password)
    requires ParseHostPort(ServerPart(connStr)) == Success((s.host, s.port))
    ensures ParseServer(connStr) == Success(s)
  {
  }
}
