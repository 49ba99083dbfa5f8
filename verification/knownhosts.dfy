/** How the pieces of hostkey.go fit together on a known_hosts file: where the
    offsets of `findServer` point, what `updateKnownHosts` does to the lines of the
    file, and that the server is a perfect match once its line is written. */
module KnownHosts {
  import opened Wrappers
  import opened Strings
  import opened Files
  import opened Spare
  import opened HostKey

  predicate NoBlankLines(lines: seq<string>)
  {
    forall i :: 0 <= i < |lines| ==> !IsBlank(lines[i])
  }

  lemma BlankConcat(a: string, b: string)
    requires IsBlank(a + b)
    ensures IsBlank(a) && IsBlank(b)
  {
    assert forall i :: 0 <= i < |a| ==> a[i] == (a + b)[i];
    assert forall i :: 0 <= i < |b| ==> b[i] == (a + b)[|a| + i];
  }

  lemma {:induction false} UnlinesAppend(a: seq<string>, b: seq<string>)
    ensures Unlines(a + b) == Unlines(a) + Unlines(b)
    decreases |a|
  {
    if a != [] {
      assert (a + b)[1..] == a[1..] + b;
      UnlinesAppend(a[1..], b);
    } else {
      assert a + b == b;
    }
  }

  // ---------------------------------------------------------------------------
  // Offsets

  /** The offsets `findServer` counts fall short of the written size of the lines by
      the blank lines (hostkey.go:120-125): they agree exactly when no line is blank. */
  lemma {:induction false} CountedUnlines(lines: seq<string>)
    ensures Counted(lines) <= |Unlines(lines)|
    ensures Counted(lines) == |Unlines(lines)| <==> NoBlankLines(lines)
    decreases |lines|
  {
    if lines != [] {
      CountedUnlines(lines[1..]);
      if NoBlankLines(lines[1..]) && !IsBlank(lines[0]) {
        assert forall i :: 1 <= i < |lines| ==> lines[i] == lines[1..][i - 1];
      }
      if !NoBlankLines(lines[1..]) {
        var i :| 0 <= i < |lines[1..]| && IsBlank(lines[1..][i]);
        assert IsBlank(lines[i + 1]);
      }
    }
  }

  /** The new-server offset of a file without blank lines is its size, plus one for a
      last line without its newline. */
  lemma NewServerOffset(knownHosts: string)
    requires NoBlankLines(Lines(knownHosts))
    ensures Counted(Lines(knownHosts)) == if EndsInNewline(knownHosts) then |knownHosts| else |knownHosts| + 1
  {
    CountedUnlines(Lines(knownHosts));
    UnlinesOfLines(knownHosts);
  }

  /** A blank first line shifts every span one byte too early: in "\nx y\n" the line
      "x y" sits at 1, but its counted start is 0. */
  lemma BlankLineShiftsSpan()
    ensures Lines("\nx y\n") == ["", "x y"]
    ensures Counted(Lines("\nx y\n")[..1]) == 0
    ensures "\nx y\n"[1..4] == "x y" && "\nx y\n"[0..3] != "x y"
  {
    assert IndexOfCharFrom("\nx y\n", '\n', 0) == 0;
    assert "\nx y\n"[1..] == "x y\n";
    assert IndexOfCharFrom("x y\n", '\n', 0) == 3;
    assert "x y\n"[..3] == "x y";
    assert "x y\n"[4..] == "";
    assert IsBlank("");
  }

  /** In a file without blank lines before line `k`, the span counted for line `k` holds
      exactly that line and its newline. */
  lemma {:induction false} SpanOfLine(lines: seq<string>, k: nat)
    requires k < |lines| && NoBlankLines(lines[..k])
    ensures var start := Counted(lines[..k]);
      && start + |lines[k]| + 1 <= |Unlines(lines)|
      && Unlines(lines)[..start] == Unlines(lines[..k])
      && Unlines(lines)[start..start + |lines[k]| + 1] == lines[k] + "\n"
      && Unlines(lines)[start + |lines[k]| + 1..] == Unlines(lines[k + 1..])
  {
    CountedUnlines(lines[..k]);
    assert lines == lines[..k] + ([lines[k]] + lines[k + 1..]);
    UnlinesAppend(lines[..k], [lines[k]] + lines[k + 1..]);
    assert ([lines[k]] + lines[k + 1..])[1..] == lines[k + 1..];
  }

  // ---------------------------------------------------------------------------
  // The written record

  /** A record that reads back as written: hosts free of space, comma and newline,
      a key type that is not blank, and no newline in the key. */
  predicate WellFormedRecord(hosts: seq<string>, key: PublicKey)
  {
    && |hosts| >= 1
    && (forall i :: 0 <= i < |hosts| ==> ' ' !in hosts[i] && ',' !in hosts[i] && '\n' !in hosts[i])
    && '\n' !in key.keyType && '\n' !in key.blob
    && !IsBlank(key.keyType)
  }

  /** `ssh.ParseAuthorizedKey` reads the server's key back from its authorized_keys form. */
  predicate KeyParsesBack(q: Query)
  {
    q.parse(q.key.keyType + " " + q.key.blob) == Some(q.key)
  }

  lemma RecordNotBlank(hosts: seq<string>, key: PublicKey)
    requires !IsBlank(key.keyType)
    ensures !IsBlank(RecordText(hosts, key))
  {
    var line := RecordText(hosts, key);
    if IsBlank(line) {
      assert line == (Join(hosts, ',') + " ") + (key.keyType + (" " + key.blob));
      BlankConcat(Join(hosts, ',') + " ", key.keyType + (" " + key.blob));
      BlankConcat(key.keyType, " " + key.blob);
    }
  }

  /** A well-formed record listing the server, with its key, is a perfect match. */
  lemma RecordIsPerfect(hosts: seq<string>, q: Query)
    requires WellFormedRecord(hosts, q.key) && KeyParsesBack(q) && q.hostname in hosts
    ensures '\n' !in RecordText(hosts, q.key)
    ensures Relevant(RecordText(hosts, q.key), q) && Classify(RecordText(hosts, q.key), q) == Perfect
  {
    var keyText := q.key.keyType + " " + q.key.blob;
    assert RecordText(hosts, q.key) == Join(hosts, ',') + " " + keyText;
    ClassifyRecord(hosts, keyText, q);
    JoinAvoids(hosts, ',', '\n');
    RecordNotBlank(hosts, q.key);
  }

  /** The hosts written back for a relevant line that is not a perfect match: the
      server alone on a key change, the siblings and then the server for a shared key. */
  predicate RewrittenHosts(line: string, q: Query, hosts: seq<string>)
  {
    || (Classify(line, q).KeyChanged? && hosts == [q.hostname])
    || (Classify(line, q).SameKey? && hosts == Classify(line, q).hosts + [q.hostname])
  }

  /** The siblings found on a line, followed by the server, make a well-formed record. */
  lemma SiblingsWellFormed(line: string, q: Query, hosts: seq<string>)
    requires '\n' !in line && WellFormedRecord([q.hostname], q.key)
    requires RewrittenHosts(line, q, hosts)
    ensures WellFormedRecord(hosts, q.key) && q.hostname in hosts
  {
    if Classify(line, q).SameKey? {
      var siblings := Classify(line, q).hosts;
      assert forall i :: 0 <= i < |siblings| ==> hosts[i] == siblings[i];
      assert forall i :: 0 <= i < |siblings| ==> '\n' !in siblings[i];
      assert hosts[|siblings|] == q.hostname;
    }
  }

  // ---------------------------------------------------------------------------
  // Look again

  /** Looking up written lines scans exactly those lines. */
  lemma FindServerUnlines(lines: seq<string>, q: Query)
    requires NoNewlines(lines)
    ensures FindServer(Unlines(lines), q) == FindIn(lines, q, 0)
  {
    LinesOfUnlines(lines);
  }

  lemma FindInPerfect(lines: seq<string>, q: Query, k: nat)
    requires k < |lines|
    requires Relevant(lines[k], q) && Classify(lines[k], q) == Perfect
    requires forall i :: 0 <= i < k ==> !Relevant(lines[i], q)
    ensures FindIn(lines, q, 0) == Found(true, None, None, 0, 0)
  {
    FindInFirst(lines, q, 0, k, Counted(lines[..k]), Counted(lines[..k]) + |lines[k]| + 1);
  }

  /** Lines whose first relevant line is a perfect record are found perfectly. */
  lemma FindPerfectAt(lines: seq<string>, q: Query, k: nat)
    requires k < |lines| && NoNewlines(lines)
    requires Relevant(lines[k], q) && Classify(lines[k], q) == Perfect
    requires forall i :: 0 <= i < k ==> !Relevant(lines[i], q)
    ensures FindServer(Unlines(lines), q) == Found(true, None, None, 0, 0)
  {
    FindInPerfect(lines, q, k);
    FindServerUnlines(lines, q);
  }

  /** The lines of a file after its line `k` is rewritten. */
  function Replaced(lines: seq<string>, k: nat, line: string): (r: seq<string>)
    requires k < |lines|
    ensures |r| == |lines| && r[k] == line
    ensures forall i :: 0 <= i < |lines| && i != k ==> r[i] == lines[i]
  {
    lines[..k] + [line] + lines[k + 1..]
  }

  lemma ReplacedUnlines(lines: seq<string>, k: nat, line: string)
    requires k < |lines|
    ensures Unlines(Replaced(lines, k, line)) == Unlines(lines[..k]) + line + "\n" + Unlines(lines[k + 1..])
  {
    var r := Replaced(lines, k, line);
    assert r == lines[..k] + ([line] + lines[k + 1..]);
    UnlinesAppend(lines[..k], [line] + lines[k + 1..]);
    assert ([line] + lines[k + 1..])[1..] == lines[k + 1..];
  }

  /** Putting a perfect record in place of the first relevant line of some lines makes
      the server a perfect match. */
  lemma FindAfterReplace(lines: seq<string>, q: Query, k: nat, line: string)
    requires k < |lines| && NoNewlines(lines) && '\n' !in line
    requires forall i :: 0 <= i < k ==> !Relevant(lines[i], q)
    requires Relevant(line, q) && Classify(line, q) == Perfect
    ensures FindServer(Unlines(Replaced(lines, k, line)), q) == Found(true, None, None, 0, 0)
  {
    var r := Replaced(lines, k, line);
    assert forall i :: 0 <= i < |r| ==> '\n' !in r[i];
    assert forall i :: 0 <= i < k ==> !Relevant(r[i], q);
    FindPerfectAt(r, q, k);
  }

  // ---------------------------------------------------------------------------
  // Append

  lemma UnlinesSnoc(lines: seq<string>, line: string)
    ensures Unlines(lines + [line]) == Unlines(lines) + line + "\n"
  {
    UnlinesAppend(lines, [line]);
    assert Unlines([line]) == line + "\n" + "";
  }

  /** The bytes an append leaves: the old file, a newline if it lacked a final one, the record. */
  lemma AppendForm(knownHosts: string, hostname: string, key: PublicKey, start: nat, end: nat)
    ensures UpdateKnownHosts(knownHosts, hostname, key, None, None, start, end)
         == Success((if EndsInNewline(knownHosts) then knownHosts else knownHosts + "\n")
                    + RecordText([hostname], key) + "\n")
  {
    var record := RecordText([hostname], key);
    var separated := if EndsInNewline(knownHosts) then knownHosts else knownHosts + "\n";
    assert RecordLine(hostname, key, None) == record + "\n";
    assert UpdateKnownHosts(knownHosts, hostname, key, None, None, start, end) == Success(separated + (record + "\n"));
    assert separated + (record + "\n") == separated + record + "\n";
  }

  /** Appending writes the record as one more line after the old ones. */
  lemma AppendWritesLine(knownHosts: string, hostname: string, key: PublicKey, start: nat, end: nat)
    ensures UpdateKnownHosts(knownHosts, hostname, key, None, None, start, end)
         == Success(Unlines(Lines(knownHosts) + [RecordText([hostname], key)]))
  {
    AppendForm(knownHosts, hostname, key, start, end);
    UnlinesOfLines(knownHosts);
    UnlinesSnoc(Lines(knownHosts), RecordText([hostname], key));
  }

  /** Appending a perfect record after lines none of which is relevant makes the
      server a perfect match. */
  lemma FindAfterAppend(lines: seq<string>, q: Query, line: string)
    requires NoNewlines(lines) && '\n' !in line
    requires forall i :: 0 <= i < |lines| ==> !Relevant(lines[i], q)
    requires Relevant(line, q) && Classify(line, q) == Perfect
    ensures FindServer(Unlines(lines + [line]), q) == Found(true, None, None, 0, 0)
  {
    var after := lines + [line];
    assert after[|lines|] == line;
    assert forall i :: 0 <= i < |lines| ==> after[i] == lines[i];
    FindPerfectAt(after, q, |lines|);
  }

  /** A new server's record is appended as one more line (hostkey.go:170-190), and
      looking the server up again finds a perfect match. */
  lemma AppendThenFind(knownHosts: string, q: Query)
    requires forall i :: 0 <= i < |Lines(knownHosts)| ==> !Relevant(Lines(knownHosts)[i], q)
    requires WellFormedRecord([q.hostname], q.key) && KeyParsesBack(q)
    ensures var found := FindServer(knownHosts, q);
      var r := UpdateKnownHosts(knownHosts, q.hostname, q.key, found.oldKey, found.hostsWithSameKey, found.start, found.end);
      && r.Success?
      && Lines(r.value) == Lines(knownHosts) + [RecordText([q.hostname], q.key)]
      && FindServer(r.value, q) == Found(true, None, None, 0, 0)
  {
    var lines := Lines(knownHosts);
    var line := RecordText([q.hostname], q.key);
    FindServerNew(knownHosts, q);
    AppendWritesLine(knownHosts, q.hostname, q.key, Counted(lines), Counted(lines));
    RecordIsPerfect([q.hostname], q);
    LinesOfUnlines(lines + [line]);
    FindAfterAppend(lines, q, line);
  }

  // ---------------------------------------------------------------------------
  // Splice

  /** The bytes a splice leaves when the span lies inside the file. */
  lemma SpliceForm(knownHosts: string, hostname: string, key: PublicKey, oldKey: Option<PublicKey>,
                   hostsWithSameKey: Option<seq<string>>, start: nat, end: nat)
    requires oldKey.Some? || hostsWithSameKey.Some?
    requires start <= end <= |knownHosts|
    ensures UpdateKnownHosts(knownHosts, hostname, key, oldKey, hostsWithSameKey, start, end)
         == Success(knownHosts[..start] + RecordText(RecordHosts(hostname, hostsWithSameKey), key) + "\n" + knownHosts[end..])
  {
    var record := RecordText(RecordHosts(hostname, hostsWithSameKey), key);
    var tail := if end < |knownHosts| then knownHosts[end..] else "";
    assert tail == knownHosts[end..];
    assert RecordLine(hostname, key, hostsWithSameKey) == record + "\n";
    assert UpdateKnownHosts(knownHosts, hostname, key, oldKey, hostsWithSameKey, start, end)
        == Success(knownHosts[..start] + (record + "\n") + tail);
    assert knownHosts[..start] + (record + "\n") == knownHosts[..start] + record + "\n";
  }

  lemma UnlinesOfTerminated(text: string)
    requires EndsInNewline(text)
    ensures Unlines(Lines(text)) == text
  {
    UnlinesOfLines(text);
  }

  /** Splicing over the counted span of line `k`, with no blank line before it,
      rewrites exactly that line. */
  lemma SpliceLines(knownHosts: string, lines: seq<string>, k: nat, hostname: string, key: PublicKey,
                    oldKey: Option<PublicKey>, hostsWithSameKey: Option<seq<string>>, start: nat, end: nat)
    requires knownHosts == Unlines(lines)
    requires k < |lines| && NoBlankLines(lines[..k])
    requires start == Counted(lines[..k]) && end == start + |lines[k]| + 1
    requires oldKey.Some? || hostsWithSameKey.Some?
    ensures UpdateKnownHosts(knownHosts, hostname, key, oldKey, hostsWithSameKey, start, end)
         == Success(Unlines(Replaced(lines, k, RecordText(RecordHosts(hostname, hostsWithSameKey), key))))
  {
    var line := RecordText(RecordHosts(hostname, hostsWithSameKey), key);
    SpanAround(knownHosts, lines, k);
    SpliceForm(knownHosts, hostname, key, oldKey, hostsWithSameKey, start, end);
    ReplacedUnlines(lines, k, line);
    Recompose(knownHosts[..start], Unlines(lines[..k]), line, knownHosts[end..], Unlines(lines[k + 1..]));
  }

  /** The bytes before and after the counted span of line `k`. */
  lemma SpanAround(knownHosts: string, lines: seq<string>, k: nat)
    requires knownHosts == Unlines(lines)
    requires k < |lines| && NoBlankLines(lines[..k])
    ensures var start := Counted(lines[..k]);
      && start + |lines[k]| + 1 <= |knownHosts|
      && knownHosts[..start] == Unlines(lines[..k])
      && knownHosts[start + |lines[k]| + 1..] == Unlines(lines[k + 1..])
  {
    SpanOfLine(lines, k);
  }

  lemma Recompose(before: string, before': string, line: string, after: string, after': string)
    requires before == before' && after == after'
    ensures before + line + "\n" + after == before' + line + "\n" + after'
  {
  }

  /** What `findServer` reports for a relevant line that is not a perfect match: its
      span, and the hosts that are written back in its place. */
  lemma ReportedSplice(line: string, q: Query, start: nat, end: nat)
    requires Relevant(line, q) && Classify(line, q) != Perfect
    ensures var found := Report(Classify(line, q), start, end);
      && found.start == start && found.end == end
      && (found.oldKey.Some? || found.hostsWithSameKey.Some?)
      && RewrittenHosts(line, q, RecordHosts(q.hostname, found.hostsWithSameKey))
  {
  }

  /** When the first relevant line of a newline-terminated file, with no blank line before
      it, names the server under another key or holds the server's key under other names,
      `updateKnownHosts` rewrites exactly that line (hostkey.go:192-206): to the sibling
      names followed by the server, or, on a key change, to the server alone. */
  lemma SpliceRewritesLine(knownHosts: string, q: Query, k: nat)
    requires EndsInNewline(knownHosts)
    requires k < |Lines(knownHosts)| && Relevant(Lines(knownHosts)[k], q)
    requires forall i :: 0 <= i < k ==> !Relevant(Lines(knownHosts)[i], q)
    requires Classify(Lines(knownHosts)[k], q) != Perfect
    requires NoBlankLines(Lines(knownHosts)[..k])
    ensures var lines := Lines(knownHosts);
      var found := FindServer(knownHosts, q);
      var hosts := RecordHosts(q.hostname, found.hostsWithSameKey);
      && UpdateKnownHosts(knownHosts, q.hostname, q.key, found.oldKey, found.hostsWithSameKey, found.start, found.end)
         == Success(Unlines(Replaced(lines, k, RecordText(hosts, q.key))))
      && RewrittenHosts(lines[k], q, hosts)
  {
    var lines := Lines(knownHosts);
    var found := FindServer(knownHosts, q);
    SpliceFound(knownHosts, q, k);
    UnlinesOfTerminated(knownHosts);
    SpliceLines(knownHosts, lines, k, q.hostname, q.key, found.oldKey, found.hostsWithSameKey, found.start, found.end);
  }

  /** What `findServer` reports when the first relevant line is not a perfect match. */
  lemma SpliceFound(knownHosts: string, q: Query, k: nat)
    requires k < |Lines(knownHosts)| && Relevant(Lines(knownHosts)[k], q)
    requires forall i :: 0 <= i < k ==> !Relevant(Lines(knownHosts)[i], q)
    requires Classify(Lines(knownHosts)[k], q) != Perfect
    ensures var lines := Lines(knownHosts);
      var found := FindServer(knownHosts, q);
      && found.start == Counted(lines[..k]) && found.end == found.start + |lines[k]| + 1
      && (found.oldKey.Some? || found.hostsWithSameKey.Some?)
      && RewrittenHosts(lines[k], q, RecordHosts(q.hostname, found.hostsWithSameKey))
  {
    var lines := Lines(knownHosts);
    var start := Counted(lines[..k]);
    FindServerFirst(knownHosts, q, k, start, start + |lines[k]| + 1);
    ReportedSplice(lines[k], q, start, start + |lines[k]| + 1);
  }

  /** After the rewrite the server is a perfect match. */
  lemma SpliceThenFind(knownHosts: string, q: Query, k: nat)
    requires EndsInNewline(knownHosts)
    requires k < |Lines(knownHosts)| && Relevant(Lines(knownHosts)[k], q)
    requires forall i :: 0 <= i < k ==> !Relevant(Lines(knownHosts)[i], q)
    requires Classify(Lines(knownHosts)[k], q) != Perfect
    requires NoBlankLines(Lines(knownHosts)[..k])
    requires WellFormedRecord([q.hostname], q.key) && KeyParsesBack(q)
    ensures var found := FindServer(knownHosts, q);
      var r := UpdateKnownHosts(knownHosts, q.hostname, q.key, found.oldKey, found.hostsWithSameKey, found.start, found.end);
      r.Success? && FindServer(r.value, q) == Found(true, None, None, 0, 0)
  {
    var lines := Lines(knownHosts);
    var found := FindServer(knownHosts, q);
    var hosts := RecordHosts(q.hostname, found.hostsWithSameKey);
    SpliceRewritesLine(knownHosts, q, k);
    SiblingsWellFormed(lines[k], q, hosts);
    RecordIsPerfect(hosts, q);
    FindAfterReplace(lines, q, k, RecordText(hosts, q.key));
  }
}
