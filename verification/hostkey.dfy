/** hostkey.go: the known_hosts trust store. `findServer` scans the file for the
    line about a server, `updateKnownHosts` appends a line for a new server or
    rewrites the line found, and `extractHostname` picks the spelling of the
    server used in the file. */
module HostKey {
  import opened Wrappers
  import opened Strings
  import opened Strconv
  import opened Constants
  import opened Utils
  import opened Files
  import opened Spare

  /** An `ssh.PublicKey`, by its type name and the base64 text of its wire form.
      Two keys have equal `Marshal` bytes exactly when they are equal here. */
  datatype PublicKey = PublicKey(keyType: string, blob: string)

  /** `ssh.MarshalAuthorizedKey`: type, space, base64, newline. */
  function MarshalAuthorizedKey(key: PublicKey): string
  {
    key.keyType + " " + key.blob + "\n"
  }

  /** What `findServer` is asked: the server's known_hosts spelling, its address
      spelling, the key it presented, and `ssh.ParseAuthorizedKey` as `parse`
      (`None` for its error). */
  datatype Query = Query(hostname: string, rawAddr: string, key: PublicKey, parse: string -> Option<PublicKey>)

  /** The five results of `findServer`: perfect match, sibling hosts of the same
      key, the server's old key, and the span of the line they come from. */
  datatype Found = Found(perfect: bool, hostsWithSameKey: Option<seq<string>>, oldKey: Option<PublicKey>, start: nat, end: nat)

  /** How one line relates to the query. */
  datatype LineMatch = Unrelated | Perfect | KeyChanged(oldKey: PublicKey) | SameKey(hosts: seq<string>)

  // ---------------------------------------------------------------------------
  // Lines

  /** The lines `bufio.Scanner` yields: the text cut at each `\n`, a final
      unterminated piece counting as a line. */
  function Lines(text: string): (lines: seq<string>)
    ensures forall i :: 0 <= i < |lines| ==> '\n' !in lines[i]
    decreases |text|
  {
    if text == "" then []
    else
      var i := IndexOfCharFrom(text, '\n', 0);
      if i == |text| then [text]
      else
        assert '\n' !in text[..i];
        [text[..i]] + Lines(text[i + 1..])
  }

  /** Lines written out, each with its newline. */
  function Unlines(lines: seq<string>): string
  {
    if lines == [] then "" else lines[0] + "\n" + Unlines(lines[1..])
  }

  predicate EndsInNewline(text: string)
  {
    text == "" || text[|text| - 1] == '\n'
  }

  predicate NoNewlines(lines: seq<string>)
  {
    forall i :: 0 <= i < |lines| ==> '\n' !in lines[i]
  }

  /** Reading back written lines gives the same lines. */
  lemma {:induction false} LinesOfUnlines(lines: seq<string>)
    requires NoNewlines(lines)
    ensures Lines(Unlines(lines)) == lines
    decreases |lines|
  {
    if lines != [] {
      var text := Unlines(lines);
      var rest := Unlines(lines[1..]);
      assert text == lines[0] + "\n" + rest;
      assert text[|lines[0]|] == '\n';
      assert forall k :: 0 <= k < |lines[0]| ==> text[k] == lines[0][k];
      assert IndexOfCharFrom(text, '\n', 0) == |lines[0]|;
      assert text[..|lines[0]|] == lines[0];
      assert text[|lines[0]| + 1..] == rest;
      LinesOfUnlines(lines[1..]);
    }
  }

  /** Writing out the lines of a text gives it back, with a newline added when
      its last line had none. */
  lemma {:induction false} UnlinesOfLines(text: string)
    ensures Unlines(Lines(text)) == if EndsInNewline(text) then text else text + "\n"
    decreases |text|
  {
    if text != "" {
      var i := IndexOfCharFrom(text, '\n', 0);
      if i < |text| {
        var tail := text[i + 1..];
        UnlinesFirst(text, i);
        UnlinesOfLines(tail);
        if tail != "" {
          assert tail[|tail| - 1] == text[|text| - 1];
        }
      } else {
        assert Lines(text) == [text];
        assert Unlines([text]) == text + "\n" + "";
      }
    }
  }

  /** Writing out the lines of a text whose first newline is at `i`: the first line,
      its newline, then the lines after it. */
  lemma UnlinesFirst(text: string, i: nat)
    requires i < |text| && i == IndexOfCharFrom(text, '\n', 0)
    ensures Unlines(Lines(text)) == text[..i] + "\n" + Unlines(Lines(text[i + 1..]))
    ensures text == text[..i] + "\n" + text[i + 1..]
  {
    var head := text[..i];
    var rest := Lines(text[i + 1..]);
    assert Lines(text) == [head] + rest;
    assert ([head] + rest)[1..] == rest;
    CutAround(text, i);
  }

  // ---------------------------------------------------------------------------
  // findServer

  /** How `findServer` judges one non-blank line (hostkey.go:130-160): split at the
      first space into a comma-separated host list and a key; a line without a
      space or with an unparsable key is skipped. */
  function Classify(line: string, q: Query): (m: LineMatch)
    // a sibling list is the line's comma-separated first field, free of spaces and commas
    ensures m.SameKey? ==>
      && |m.hosts| >= 1 && ' ' in line
      && forall i, c :: 0 <= i < |m.hosts| && c in m.hosts[i] ==> c in line && c != ' ' && c != ','
    // a verdict other than "unrelated" needs a line that parses as `hosts key`
    ensures m != Unrelated ==> |SplitN2(line, ' ')| == 2 && q.parse(SplitN2(line, ' ')[1]).Some?
  {
    var splits := SplitN2(line, ' ');
    if |splits| != 2 then Unrelated
    else
      var hosts := Split(splits[0], ',');
      match q.parse(splits[1])
      case None => Unrelated
      case Some(keyInLine) =>
        var isHostMatch := (ArrayContains(hosts, q.hostname) || ArrayContains(hosts, q.rawAddr))
                           && q.key.keyType == keyInLine.keyType;
        var isKeyMatch := q.key == keyInLine;
        if !isHostMatch && !isKeyMatch then Unrelated
        else if isHostMatch && isKeyMatch then Perfect
        else if isHostMatch then KeyChanged(keyInLine)
        else SameKey(hosts)
  }

  /** A line that stops the scan. */
  predicate Relevant(line: string, q: Query)
  {
    !IsBlank(line) && Classify(line, q) != Unrelated
  }

  /** The verdict on a relevant line spanning `[start, end)`. */
  function Report(m: LineMatch, start: nat, end: nat): Found
    requires m != Unrelated
  {
    match m
    case Perfect => Found(true, None, None, 0, 0)
    case KeyChanged(previous) => Found(false, None, Some(previous), start, end)
    case SameKey(hosts) => Found(false, Some(hosts), None, start, end)
  }

  /** The bytes `findServer` counts for one line. */
  function LineCount(line: string): nat
  {
    if IsBlank(line) then 0 else |line| + 1
  }

  /** The bytes `findServer` counts for some lines: each non-blank line and one
      separator byte; blank lines count nothing. */
  function Counted(lines: seq<string>): nat
  {
    if lines == [] then 0
    else LineCount(lines[0]) + Counted(lines[1..])
  }

  /** The scan of hostkey.go:117-165 over the remaining lines, `start` being the
      offset reached so far. */
  function FindIn(lines: seq<string>, q: Query, start: nat): Found
    decreases |lines|
  {
    if lines == [] then Found(false, None, None, start, start)
    else if IsBlank(lines[0]) then FindIn(lines[1..], q, start)
    else
      var end := start + |lines[0]| + 1;
      var m := Classify(lines[0], q);
      if m == Unrelated then FindIn(lines[1..], q, end) else Report(m, start, end)
  }

  /** `findServer`. */
  function FindServer(knownHosts: string, q: Query): Found
  {
    FindIn(Lines(knownHosts), q, 0)
  }

  /** A line that is not relevant is skipped, its bytes counted. */
  lemma FindInSkip(lines: seq<string>, q: Query, start: nat)
    requires lines != [] && !Relevant(lines[0], q)
    ensures FindIn(lines, q, start) == FindIn(lines[1..], q, start + LineCount(lines[0]))
    ensures Counted(lines) == LineCount(lines[0]) + Counted(lines[1..])
  {
  }

  /** `findServer` scans the lines of the file from offset zero. */
  lemma FindServerScans(knownHosts: string, q: Query)
    ensures FindServer(knownHosts, q) == FindIn(Lines(knownHosts), q, 0)
  {
  }

  /** Without a relevant line the scan reports a new server at the counted end. */
  lemma {:induction false} FindInNone(lines: seq<string>, q: Query, start: nat)
    requires forall i :: 0 <= i < |lines| ==> !Relevant(lines[i], q)
    ensures FindIn(lines, q, start) == Found(false, None, None, start + Counted(lines), start + Counted(lines))
    decreases |lines|
  {
    if lines != [] {
      assert !Relevant(lines[0], q);
      FindInSkip(lines, q, start);
      FindInNone(lines[1..], q, start + LineCount(lines[0]));
    }
  }

  lemma CountedHead(lines: seq<string>, k: nat)
    requires 0 < k <= |lines|
    ensures Counted(lines[..k]) == LineCount(lines[0]) + Counted(lines[1..][..k - 1])
  {
    assert lines[..k][1..] == lines[1..][..k - 1];
  }

  /** The first relevant line decides, reported with its counted span `[lineStart, lineEnd)`. */
  lemma {:induction false} FindInFirst(lines: seq<string>, q: Query, start: nat, k: nat, lineStart: nat, lineEnd: nat)
    requires k < |lines| && Relevant(lines[k], q)
    requires forall i :: 0 <= i < k ==> !Relevant(lines[i], q)
    requires lineStart == start + Counted(lines[..k]) && lineEnd == lineStart + |lines[k]| + 1
    ensures FindIn(lines, q, start) == Report(Classify(lines[k], q), lineStart, lineEnd)
    decreases k, 1
  {
    if k > 0 {
      FindInNext(lines, q, start, k, lineStart, lineEnd);
    } else {
      FindInStop(lines, q, start, lineStart, lineEnd);
    }
  }

  /** The step of `FindInFirst`: the first line is skipped. */
  lemma {:induction false} FindInNext(lines: seq<string>, q: Query, start: nat, k: nat, lineStart: nat, lineEnd: nat)
    requires 0 < k < |lines| && Relevant(lines[k], q)
    requires forall i :: 0 <= i < k ==> !Relevant(lines[i], q)
    requires lineStart == start + Counted(lines[..k]) && lineEnd == lineStart + |lines[k]| + 1
    ensures FindIn(lines, q, start) == Report(Classify(lines[k], q), lineStart, lineEnd)
    decreases k, 0
  {
    var rest := lines[1..];
    SkipFirst(lines, q, k);
    FindInSkip(lines, q, start);
    CountedHead(lines, k);
    FindInFirst(rest, q, start + LineCount(lines[0]), k - 1, lineStart, lineEnd);
  }

  /** Dropping an irrelevant first line keeps the rest irrelevant up to line `k`, which moves to `k - 1`. */
  lemma SkipFirst(lines: seq<string>, q: Query, k: nat)
    requires 0 < k < |lines|
    requires forall i :: 0 <= i < k ==> !Relevant(lines[i], q)
    ensures !Relevant(lines[0], q) && lines[1..][k - 1] == lines[k]
    ensures forall i :: 0 <= i < k - 1 ==> !Relevant(lines[1..][i], q)
  {
    assert forall i :: 0 <= i < k - 1 ==> lines[1..][i] == lines[i + 1];
  }

  /** A relevant first line stops the scan. */
  lemma FindInStop(lines: seq<string>, q: Query, start: nat, lineStart: nat, lineEnd: nat)
    requires lines != [] && Relevant(lines[0], q)
    requires lineStart == start + Counted(lines[..0]) && lineEnd == lineStart + |lines[0]| + 1
    ensures FindIn(lines, q, start) == Report(Classify(lines[0], q), lineStart, lineEnd)
  {
    assert lines[..0] == [];
  }

  /** `findServer` on a file with no relevant line reports a new server, at the
      counted end of the file (hostkey.go:165). */
  lemma FindServerNew(knownHosts: string, q: Query)
    requires forall i :: 0 <= i < |Lines(knownHosts)| ==> !Relevant(Lines(knownHosts)[i], q)
    ensures FindServer(knownHosts, q) == Found(false, None, None, Counted(Lines(knownHosts)), Counted(Lines(knownHosts)))
  {
    FindInNone(Lines(knownHosts), q, 0);
  }

  /** Otherwise the first relevant line decides, with its counted span. */
  lemma FindServerFirst(knownHosts: string, q: Query, k: nat, lineStart: nat, lineEnd: nat)
    requires k < |Lines(knownHosts)| && Relevant(Lines(knownHosts)[k], q)
    requires forall i :: 0 <= i < k ==> !Relevant(Lines(knownHosts)[i], q)
    requires lineStart == Counted(Lines(knownHosts)[..k]) && lineEnd == lineStart + |Lines(knownHosts)[k]| + 1
    ensures FindServer(knownHosts, q) == Report(Classify(Lines(knownHosts)[k], q), lineStart, lineEnd)
  {
    FindInFirst(Lines(knownHosts), q, 0, k, lineStart, lineEnd);
    FindServerScans(knownHosts, q);
  }

  /** A line `h1,...,hn keyText` with hosts free of spaces and commas is judged by its
      fields (hostkey.go:137-160): a listed name with the same key type is the server,
      perfectly matched or with a changed key; otherwise the same key under other
      names gives those names, in file order; anything else is unrelated. */
  lemma ClassifyRecord(hosts: seq<string>, keyText: string, q: Query)
    requires |hosts| >= 1
    requires forall i :: 0 <= i < |hosts| ==> ' ' !in hosts[i] && ',' !in hosts[i]
    ensures Classify(Join(hosts, ',') + " " + keyText, q) ==
      match q.parse(keyText)
      case None => Unrelated
      case Some(k) =>
        if (q.hostname in hosts || q.rawAddr in hosts) && q.key.keyType == k.keyType then
          (if q.key == k then Perfect else KeyChanged(k))
        else if q.key == k then SameKey(hosts)
        else Unrelated
  {
    RecordFields(hosts, keyText);
    SplitJoin(hosts, ',');
  }

  /** A record line splits at the space after its host list. */
  lemma RecordFields(hosts: seq<string>, keyText: string)
    requires forall i :: 0 <= i < |hosts| ==> ' ' !in hosts[i]
    ensures SplitN2(Join(hosts, ',') + " " + keyText, ' ') == [Join(hosts, ','), keyText]
  {
    JoinAvoids(hosts, ',', ' ');
    SplitAtFirst(Join(hosts, ','), ' ', keyText);
  }

  // ---------------------------------------------------------------------------
  // updateKnownHosts

  /** The hosts of the line `updateKnownHosts` writes: the siblings, if any, then the
      server itself. */
  function RecordHosts(hostname: string, hostsWithSameKey: Option<seq<string>>): (hosts: seq<string>)
    ensures |hosts| >= 1 && hosts[|hosts| - 1] == hostname
  {
    if hostsWithSameKey.Some? then hostsWithSameKey.value + [hostname] else [hostname]
  }

  /** A known_hosts line without its newline, as it reads back. */
  function RecordText(hosts: seq<string>, key: PublicKey): string
  {
    Join(hosts, ',') + " " + key.keyType + " " + key.blob
  }

  /** `bytesToWrite` (hostkey.go:169). */
  function RecordLine(hostname: string, key: PublicKey, hostsWithSameKey: Option<seq<string>>): (r: string)
    ensures r == RecordText(RecordHosts(hostname, hostsWithSameKey), key) + "\n"
  {
    Join(RecordHosts(hostname, hostsWithSameKey), ',') + " " + MarshalAuthorizedKey(key)
  }

  /** `updateKnownHosts`, with `spareSpace` doing what it is meant to do. A new server
      (no old key, no siblings) is appended, after a newline when the file lacks a final
      one; otherwise the record replaces the span `[relevantLineStart, relevantLineEnd)`. */
  function UpdateKnownHosts(knownHosts: string, hostname: string, key: PublicKey,
                            oldKey: Option<PublicKey>, hostsWithSameKey: Option<seq<string>>,
                            relevantLineStart: nat, relevantLineEnd: nat): (r: Result<string, SpareError>)
    // appending keeps every old byte and ends with the record
    ensures oldKey.None? && hostsWithSameKey.None? ==>
      var record := RecordLine(hostname, key, None);
      && r.Success?
      && |r.value| == |knownHosts| + |record| + (if EndsInNewline(knownHosts) then 0 else 1)
      && r.value[..|knownHosts|] == knownHosts
      && r.value[|r.value| - |record|..] == record
      && (!EndsInNewline(knownHosts) ==> r.value[|knownHosts|] == '\n')
    // splicing keeps the bytes around the span and puts the record in between
    ensures (&& (oldKey.Some? || hostsWithSameKey.Some?)
             && relevantLineStart <= relevantLineEnd && relevantLineStart <= |knownHosts|
             && relevantLineEnd <= |knownHosts| + |RecordLine(hostname, key, hostsWithSameKey)|) ==>
      r == Success(knownHosts[..relevantLineStart] + RecordLine(hostname, key, hostsWithSameKey)
                   + (if relevantLineEnd < |knownHosts| then knownHosts[relevantLineEnd..] else ""))
  {
    var bytesToWrite := RecordLine(hostname, key, hostsWithSameKey);
    if oldKey.None? && hostsWithSameKey.None? then
      var separator := if |knownHosts| > 0 && knownHosts[|knownHosts| - 1] != '\n' then "\n" else "";
      Success(knownHosts + separator + bytesToWrite)
    else
      match Spared(knownHosts, relevantLineStart, relevantLineEnd, |bytesToWrite|)
      case Failure(e) => Failure(e)
      case Success(spared) =>
        var written := WriteAt(spared, bytesToWrite, relevantLineStart);
        if relevantLineStart <= relevantLineEnd && relevantLineStart <= |knownHosts|
           && relevantLineEnd <= |knownHosts| + |bytesToWrite| then
          SpareThenWrite(knownHosts, relevantLineStart, relevantLineEnd, bytesToWrite);
          Success(written)
        else Success(written)
  }

  // ---------------------------------------------------------------------------
  // extractHostname

  /** `net.SplitHostPort` of the Go standard library: the port follows the last `:`;
      a host opening with `[` must close with the first `]` just before that `:` and
      loses its brackets; an unbracketed host may not hold `:`; stray brackets fail. */
  function SplitHostPort(hostport: string): Option<(string, string)>
  {
    var i := LastIndexOf(hostport, ":");
    if i < 0 then None
    else if hostport[0] == '[' then
      var end := IndexOfCharFrom(hostport, ']', 0);
      if end == |hostport| || end + 1 != i then None
      else if '[' in hostport[1..] || ']' in hostport[end + 1..] then None
      else Some((hostport[1..end], hostport[i + 1..]))
    else
      var host := hostport[..i];
      if ':' in host || '[' in hostport || ']' in hostport then None
      else Some((host, hostport[i + 1..]))
  }

  /** `net.JoinHostPort`: brackets around a host that holds `:`. */
  function JoinHostPort(host: string, port: string): string
  {
    if ':' in host then "[" + host + "]:" + port else host + ":" + port
  }

  /** The last `:` of `prefix:port`, for a port without `:`, is the one before the port. */
  lemma LastColon(prefix: string, port: string)
    requires ':' !in port
    ensures LastIndexOf(prefix + ":" + port, ":") == |prefix|
  {
    var s := prefix + ":" + port;
    var i := |prefix|;
    assert s[i..i + 1] == ":";
    assert OccursAt(s, ":", i);
    forall j | i < j
      ensures !OccursAt(s, ":", j)
    {
      if j < |s| {
        assert s[j] == port[j - i - 1];
      }
    }
  }

  /** Where the brackets of `[host]:port` sit. */
  lemma BracketedShape(host: string, port: string)
    requires '[' !in host && ']' !in host && '[' !in port && ']' !in port && ':' !in port
    ensures var s := "[" + host + "]:" + port;
      && s[0] == '[' && LastIndexOf(s, ":") == |host| + 2
      && IndexOfCharFrom(s, ']', 0) == |host| + 1
      && '[' !in s[1..] && ']' !in s[|host| + 2..]
      && s[1..|host| + 1] == host && s[|host| + 3..] == port
  {
    var s := "[" + host + "]:" + port;
    assert s == ("[" + host + "]") + ":" + port;
    LastColon("[" + host + "]", port);
    assert s[|host| + 1] == ']';
    assert forall k :: 0 <= k < |host| + 1 ==> s[k] != ']';
    assert s[1..] == host + "]:" + port;
    assert s[|host| + 2..] == ":" + port;
  }

  lemma SplitJoinBracketed(host: string, port: string)
    requires ':' in host && '[' !in host && ']' !in host
    requires ':' !in port && '[' !in port && ']' !in port
    ensures SplitHostPort("[" + host + "]:" + port) == Some((host, port))
  {
    BracketedShape(host, port);
  }

  lemma SplitJoinPlain(host: string, port: string)
    requires ':' !in host && '[' !in host && ']' !in host
    requires ':' !in port && '[' !in port && ']' !in port
    ensures SplitHostPort(host + ":" + port) == Some((host, port))
  {
    var s := host + ":" + port;
    LastColon(host, port);
    assert s[..|host|] == host;
    assert s[|host| + 1..] == port;
    if |host| > 0 {
      assert s[0] == host[0];
    }
  }

  /** `net.SplitHostPort` undoes `net.JoinHostPort` for hosts and ports without
      brackets and ports without `:`. */
  lemma SplitJoinHostPort(host: string, port: string)
    requires '[' !in host && ']' !in host
    requires ':' !in port && '[' !in port && ']' !in port
    ensures SplitHostPort(JoinHostPort(host, port)) == Some((host, port))
  {
    if ':' in host {
      SplitJoinBracketed(host, port);
    } else {
      SplitJoinPlain(host, port);
    }
  }

  datatype ExtractError = SplitFailed(hostname: string)

  /** `extractHostname`: the known_hosts spelling of an address `host:port` and the
      name to show for it. On port 22 both are the bare host; on any other port the
      known_hosts spelling is `[host]:port` and the name shown is the address itself. */
  function ExtractHostname(hostname: string): (r: Result<(string, string), ExtractError>)
    ensures r.Failure? <==> SplitHostPort(hostname).None?
  {
    match SplitHostPort(hostname)
    case None => Failure(SplitFailed(hostname))
    case Some((host, port)) =>
      if port == Itoa(DefaultSSHPort) then Success((host, host))
      else Success(("[" + host + "]:" + port, hostname))
  }

  /** For an address written by `net.JoinHostPort`, the known_hosts spelling is the bare
      host on port 22 and `[host]:port` otherwise, brackets added even for a name. */
  lemma ExtractJoined(host: string, port: string)
    requires '[' !in host && ']' !in host
    requires ':' !in port && '[' !in port && ']' !in port
    ensures ExtractHostname(JoinHostPort(host, port))
         == Success(if port == "22" then (host, host) else ("[" + host + "]:" + port, JoinHostPort(host, port)))
  {
    SplitJoinHostPort(host, port);
    assert Itoa(DefaultSSHPort) == "22";
  }

  // ---------------------------------------------------------------------------
  // The reply to the prompt

  /** The answer `hostKeyHandler` takes as approval (hostkey.go:72-83): a reply of at
      least one byte whose first byte is one of `y`, `Y`, `1`, CR, LF. */
  function Approves(reply: string): (r: bool)
    ensures r <==> |reply| > 0 && reply[0] in ['y', 'Y', '1', '\r', '\n']
  {
    |reply| > 0 && ArrayContains("yY1\r\n", reply[0])
  }
}
