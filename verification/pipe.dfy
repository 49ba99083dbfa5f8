/** pipe.go: forwarding standard input to the remote session while picking
    xterm "resize to rows;cols" sequences out of it.

    The model is a trace. Each chunk the reader returns is turned into the
    writes and window-size calls `inPipe` makes for it, in order; the bytes
    written and the calls made are projections of that trace. Nothing is
    carried from one chunk to the next, exactly as in the source. */
module Pipe {
  import opened Wrappers
  import opened Strings
  import opened Strconv
  import opened Constants

  /** One thing `inPipe` does: write bytes to the session, or pass a decoded
      size to the resize callback, which accepts it (returns nil) or not. */
  datatype Effect =
    | Write(bytes: string)
    | Resize(payload: string, rows: int, cols: int, accepted: bool)

  /** What `procWindowChangeEvent` makes of a payload: no `rows;cols` pair, a
      pair the callback accepted, or a pair the callback refused. */
  datatype ResizeOutcome =
    | Malformed
    | Applied(rows: int, cols: int)
    | Refused(rows: int, cols: int)

  /** Position of the first `;` of a payload (its length when there is none). */
  function Semicolon(payload: string): nat
  {
    IndexOfCharFrom(payload, ';', 0)
  }

  /** A payload `procWindowChangeEvent` can decode: exactly one `;`, and a
      number `strconv.Atoi` accepts on each side of it. */
  predicate IsWindowChange(payload: string)
  {
    var k := Semicolon(payload);
    && k < |payload|
    && ';' !in payload[k + 1..]
    && IsAtoiSyntax(payload[..k])
    && IsAtoiSyntax(payload[k + 1..])
  }

  /** `procWindowChangeEvent`; `ok` tells whether the resize callback succeeds
      for a given size. Every error it returns is `Malformed` or `Refused`. */
  function ProcWindowChangeEvent(payload: string, ok: (int, int) -> bool): (r: ResizeOutcome)
    ensures r.Malformed? <==> !IsWindowChange(payload)
    ensures !r.Malformed? ==>
      var k := Semicolon(payload);
      && Atoi(payload[..k]) == Some(r.rows)
      && Atoi(payload[k + 1..]) == Some(r.cols)
      && (r.Applied? <==> ok(r.rows, r.cols))
  {
    var splits := Split(payload, ';');
    if |splits| != 2 then
      WindowChangeSplitsInTwo(payload);
      Malformed
    else
      SplitAtSemicolon(payload, splits);
      match Atoi(splits[0])
      case None => Malformed
      case Some(rows) =>
        match Atoi(splits[1])
        case None => Malformed
        case Some(cols) =>
          if ok(rows, cols) then Applied(rows, cols) else Refused(rows, cols)
  }

  /** Two parts of a split are the text before and after the first `;`. */
  lemma SplitAtSemicolon(payload: string, splits: seq<string>)
    requires splits == Split(payload, ';') && |splits| == 2
    ensures Semicolon(payload) == |splits[0]| < |payload|
    ensures splits[0] == payload[..Semicolon(payload)]
    ensures splits[1] == payload[Semicolon(payload) + 1..]
  {
    assert payload == splits[0] + [';'] + splits[1];
    assert payload[|splits[0]|] == ';';
    assert forall k :: 0 <= k < |splits[0]| ==> payload[k] == splits[0][k];
    assert payload[..|splits[0]|] == splits[0];
    assert payload[|splits[0]| + 1..] == splits[1];
  }

  /** A decodable payload splits into exactly two parts. */
  lemma WindowChangeSplitsInTwo(payload: string)
    ensures IsWindowChange(payload) ==> |Split(payload, ';')| == 2
  {
    var k := Semicolon(payload);
    if IsWindowChange(payload) {
      var rest := payload[k + 1..];
      assert payload == payload[..k] + [';'] + rest;
      assert Split(rest, ';') == [rest];
      assert Split(payload, ';') == [payload[..k]] + Split(rest, ';');
    }
  }

  /** A number `Atoi` accepts is spelled with digits and a leading sign only. */
  lemma AtoiSyntaxChars(s: string)
    requires IsAtoiSyntax(s)
    ensures forall i :: 0 <= i < |s| ==> IsDigit(s[i]) || s[i] == '+' || s[i] == '-'
  {
    if !IsDecimal(s) {
      assert forall i :: 1 <= i < |s| ==> s[i] == s[1..][i - 1];
    }
  }

  /** A decodable payload holds digits, signs and its one `;`, so neither ESC
      nor the final `t`. */
  lemma WindowChangeAvoids(payload: string)
    requires IsWindowChange(payload)
    ensures ESC !in payload && EscapeWindowChangeSuffix !in payload
  {
    var k := Semicolon(payload);
    AtoiSyntaxChars(payload[..k]);
    AtoiSyntaxChars(payload[k + 1..]);
    forall i | 0 <= i < |payload|
      ensures payload[i] != ESC && payload[i] != EscapeWindowChangeSuffix
    {
      if i < k {
        assert payload[i] == payload[..k][i];
      } else if k < i {
        assert payload[i] == payload[k + 1..][i - k - 1];
      }
    }
  }

  /** The text a well-formed size is sent as. */
  function WindowChangeText(rows: int, cols: int): string
  {
    Itoa(rows) + ";" + Itoa(cols)
  }

  /** `Itoa` output holds neither `;`, ESC nor the final `t`. */
  lemma ItoaAvoids(n: int)
    ensures ';' !in Itoa(n) && ESC !in Itoa(n) && EscapeWindowChangeSuffix !in Itoa(n)
  {
    ItoaShape(n);
  }

  /** Every size spelled in decimal decodes to itself, accepted or refused as the
      callback says. */
  lemma {:induction false} WindowChangeRoundTrip(rows: int, cols: int, ok: (int, int) -> bool)
    ensures ProcWindowChangeEvent(WindowChangeText(rows, cols), ok)
         == if ok(rows, cols) then Applied(rows, cols) else Refused(rows, cols)
  {
    var text := WindowChangeText(rows, cols);
    ItoaAvoids(rows);
    ItoaAvoids(cols);
    AtoiItoa(rows);
    AtoiItoa(cols);
    ItoaShape(rows);
    ItoaShape(cols);
    assert text[|Itoa(rows)|] == ';';
    assert forall k :: 0 <= k < |Itoa(rows)| ==> text[k] == Itoa(rows)[k];
    assert Semicolon(text) == |Itoa(rows)|;
    assert text[..|Itoa(rows)|] == Itoa(rows);
    assert text[|Itoa(rows)| + 1..] == Itoa(cols);
  }

  // ---------------------------------------------------------------------------
  // Traces and their projections

  /** The bytes of the control sequence with payload `payload`. */
  function SequenceOf(payload: string): string
  {
    EscapeWindowChangePrefix + payload + [EscapeWindowChangeSuffix]
  }

  /** The input bytes an effect accounts for: a write its bytes, an accepted
      resize its whole control sequence, a refused one nothing (the bytes of a
      refused sequence are written right after it). */
  function EffectBytes(e: Effect): string
  {
    match e
    case Write(bytes) => bytes
    case Resize(payload, _, _, accepted) =>
      if accepted then SequenceOf(payload) else ""
  }

  function Consumed(t: seq<Effect>): string
  {
    if |t| == 0 then "" else EffectBytes(t[0]) + Consumed(t[1..])
  }

  /** The bytes written to the session. */
  function Output(t: seq<Effect>): string
  {
    if |t| == 0 then ""
    else (if t[0].Write? then t[0].bytes else "") + Output(t[1..])
  }

  /** The sizes passed to the resize callback, in order. */
  function Calls(t: seq<Effect>): seq<(int, int)>
  {
    if |t| == 0 then []
    else (if t[0].Resize? then [(t[0].rows, t[0].cols)] else []) + Calls(t[1..])
  }

  /** No size in the trace was accepted by the callback. */
  predicate NoneAccepted(t: seq<Effect>)
  {
    forall k :: 0 <= k < |t| && t[k].Resize? ==> !t[k].accepted
  }

  /** A resize is what decoding its payload gives: the payload is a `rows;cols`
      pair (so it holds no ESC and no `t`), the size is that pair's two
      numbers, and it is marked accepted exactly when the callback accepts
      that size. Writes are unconstrained. */
  predicate DecodedEffect(e: Effect, ok: (int, int) -> bool)
  {
    e.Resize? ==>
      && IsWindowChange(e.payload)
      && ESC !in e.payload
      && EscapeWindowChangeSuffix !in e.payload
      && Atoi(e.payload[..Semicolon(e.payload)]) == Some(e.rows)
      && Atoi(e.payload[Semicolon(e.payload) + 1..]) == Some(e.cols)
      && e.accepted == ok(e.rows, e.cols)
  }

  /** Every resize in the trace is a decoded payload, answered by `ok`. */
  predicate Decoded(t: seq<Effect>, ok: (int, int) -> bool)
  {
    forall k :: 0 <= k < |t| ==> DecodedEffect(t[k], ok)
  }

  /** A trace is decoded exactly when both of its parts are. */
  lemma DecodedAppend(a: seq<Effect>, b: seq<Effect>, ok: (int, int) -> bool)
    ensures Decoded(a + b, ok) <==> Decoded(a, ok) && Decoded(b, ok)
  {
    assert forall k :: 0 <= k < |a| ==> (a + b)[k] == a[k];
    assert forall k :: 0 <= k < |b| ==> (a + b)[|a| + k] == b[k];
  }

  /** Every refused resize is followed by the write of its own control
      sequence and whatever comes after it: the call was made for bytes of
      the input, which are then written as they are. */
  predicate Anchored(t: seq<Effect>)
  {
    forall k :: 0 <= k < |t| && t[k].Resize? && !t[k].accepted ==>
      k + 1 < |t| && t[k + 1].Write? && OccursAt(t[k + 1].bytes, SequenceOf(t[k].payload), 0)
  }

  /** A refused resize ends the chunk's processing: only the write of its
      sequence and the rest of the chunk comes after it. */
  predicate RefusalEnds(t: seq<Effect>)
  {
    forall k :: 0 <= k < |t| && t[k].Resize? && !t[k].accepted ==> k + 2 == |t|
  }

  /** An effect followed by one final write ends any refusal in it. */
  lemma RefusalEndsPair(e: Effect, bytes: string)
    ensures RefusalEnds([e, Write(bytes)])
  {
  }

  /** Effects with no refusal in front of a trace whose refusal ends it. */
  lemma RefusalEndsAfter(a: seq<Effect>, b: seq<Effect>)
    requires forall k :: 0 <= k < |a| ==> a[k].Write? || a[k].accepted
    requires RefusalEnds(b)
    ensures RefusalEnds(a + b)
  {
    forall k | 0 <= k < |a + b| && (a + b)[k].Resize? && !(a + b)[k].accepted
      ensures k + 2 == |a + b|
    {
      assert |a| <= k;
      assert (a + b)[k] == b[k - |a|];
    }
  }

  /** Anchored traces stay anchored when joined. */
  lemma AnchoredAppend(a: seq<Effect>, b: seq<Effect>)
    requires Anchored(a) && Anchored(b)
    ensures Anchored(a + b)
  {
    forall k | 0 <= k < |a + b| && (a + b)[k].Resize? && !(a + b)[k].accepted
      ensures k + 1 < |a + b| && (a + b)[k + 1].Write?
      ensures OccursAt((a + b)[k + 1].bytes, SequenceOf((a + b)[k].payload), 0)
    {
      if k < |a| {
        assert (a + b)[k] == a[k] && (a + b)[k + 1] == a[k + 1];
      } else {
        assert (a + b)[k] == b[k - |a|] && (a + b)[k + 1] == b[k + 1 - |a|];
      }
    }
  }

  /** In an anchored trace, the control sequence of every resize occurs in the
      bytes the trace accounts for: an accepted one as its own bytes, a
      refused one at the start of the write that follows it. */
  lemma {:induction false} ResizesOccur(t: seq<Effect>)
    requires Anchored(t)
    ensures forall k :: 0 <= k < |t| && t[k].Resize? ==>
      exists i :: OccursAt(Consumed(t), SequenceOf(t[k].payload), i)
    decreases |t|
  {
    if |t| > 0 {
      var head := EffectBytes(t[0]);
      var rest := Consumed(t[1..]);
      assert Consumed(t) == head + rest;
      assert forall k :: 1 <= k < |t| ==> t[k] == t[1..][k - 1];
      assert Anchored(t[1..]);
      ResizesOccur(t[1..]);
      forall k | 0 <= k < |t| && t[k].Resize?
        ensures exists i :: OccursAt(Consumed(t), SequenceOf(t[k].payload), i)
      {
        var pat := SequenceOf(t[k].payload);
        if k == 0 && t[0].accepted {
          assert head[..|pat|] == pat;
          OccursInJoin(head, rest, pat, 0);
        } else if k == 0 {
          assert t[1..][0] == t[1];
          assert rest == t[1].bytes + Consumed(t[1..][1..]);
          OccursInJoin(t[1].bytes, Consumed(t[1..][1..]), pat, 0);
          OccursInJoin(head, rest, pat, 0);
          assert head + rest == rest;
        } else {
          assert t[1..][k - 1] == t[k];
          var i :| OccursAt(rest, pat, i);
          OccursInJoin(head, rest, pat, i);
        }
      }
    }
  }

  /** The resize made for a payload that decodes satisfies `DecodedEffect`. */
  lemma ResizeDecoded(text: string, ok: (int, int) -> bool)
    requires !ProcWindowChangeEvent(text, ok).Malformed?
    ensures
      var o := ProcWindowChangeEvent(text, ok);
      DecodedEffect(Resize(text, o.rows, o.cols, o.Applied?), ok)
  {
    WindowChangeAvoids(text);
  }

  /** Given decoded resizes, none was accepted exactly when the callback
      refused every size it was passed. */
  lemma {:induction false} NoneAcceptedIffAllRefused(t: seq<Effect>, ok: (int, int) -> bool)
    requires Decoded(t, ok)
    ensures NoneAccepted(t) <==> forall c :: c in Calls(t) ==> !ok(c.0, c.1)
    decreases |t|
  {
    if |t| > 0 {
      assert forall k :: 1 <= k < |t| ==> t[k] == t[1..][k - 1];
      assert Decoded(t[1..], ok);
      NoneAcceptedIffAllRefused(t[1..], ok);
      assert NoneAccepted(t) <==> (t[0].Resize? ==> !t[0].accepted) && NoneAccepted(t[1..]);
      assert DecodedEffect(t[0], ok);
    }
  }

  /** The projections of a trace distribute over concatenation. */
  lemma ProjectionsAppend(a: seq<Effect>, b: seq<Effect>)
    ensures Consumed(a + b) == Consumed(a) + Consumed(b)
    ensures Output(a + b) == Output(a) + Output(b)
    ensures Calls(a + b) == Calls(a) + Calls(b)
  {
    ConsumedAppend(a, b);
    OutputAppend(a, b);
    CallsAppend(a, b);
  }

  /** The first effect of `a + b`, for a non-empty `a`, and what follows it. */
  lemma TraceStep(a: seq<Effect>, b: seq<Effect>)
    requires |a| > 0
    ensures (a + b)[0] == a[0] && (a + b)[1..] == a[1..] + b
  {
  }

  lemma {:induction false} ConsumedAppend(a: seq<Effect>, b: seq<Effect>)
    ensures Consumed(a + b) == Consumed(a) + Consumed(b)
    decreases |a|
  {
    if |a| > 0 {
      TraceStep(a, b);
      ConsumedAppend(a[1..], b);
      ConcatAssoc(EffectBytes(a[0]), Consumed(a[1..]), Consumed(b));
    } else {
      assert a + b == b;
    }
  }

  lemma {:induction false} OutputAppend(a: seq<Effect>, b: seq<Effect>)
    ensures Output(a + b) == Output(a) + Output(b)
    decreases |a|
  {
    if |a| > 0 {
      TraceStep(a, b);
      OutputAppend(a[1..], b);
      ConcatAssoc(if a[0].Write? then a[0].bytes else "", Output(a[1..]), Output(b));
    } else {
      assert a + b == b;
    }
  }

  lemma {:induction false} CallsAppend(a: seq<Effect>, b: seq<Effect>)
    ensures Calls(a + b) == Calls(a) + Calls(b)
    decreases |a|
  {
    if |a| > 0 {
      TraceStep(a, b);
      CallsAppend(a[1..], b);
      ConcatAssoc(if a[0].Resize? then [(a[0].rows, a[0].cols)] else [], Calls(a[1..]), Calls(b));
    } else {
      assert a + b == b;
    }
  }

  /** The bytes written are all the bytes consumed exactly when no size was
      accepted: an accepted sequence is the only thing that swallows input. */
  lemma {:induction false} OutputIsConsumedIffNoneAccepted(t: seq<Effect>)
    ensures |Output(t)| <= |Consumed(t)|
    ensures Output(t) == Consumed(t) <==> NoneAccepted(t)
    decreases |t|
  {
    if |t| > 0 {
      var head := if t[0].Write? then t[0].bytes else "";
      OutputIsConsumedIffNoneAccepted(t[1..]);
      assert NoneAccepted(t) <==> (t[0].Resize? ==> !t[0].accepted) && NoneAccepted(t[1..]) by {
        assert forall k :: 1 <= k < |t| ==> t[k] == t[1..][k - 1];
      }
      if t[0].Resize? && t[0].accepted {
        assert |EffectBytes(t[0])| > 0 == |head|;
      } else {
        assert EffectBytes(t[0]) == head;
        if Output(t) == Consumed(t) {
          assert Output(t[1..]) == Output(t)[|head|..];
          assert Consumed(t[1..]) == Consumed(t)[|head|..];
        }
      }
    }
  }

  // ---------------------------------------------------------------------------
  // One chunk

  /** `[Write(s)]` when `s` is not empty: how `inPipe` sends what precedes a sequence. */
  function WriteIfAny(s: string): seq<Effect>
  {
    if |s| > 0 then [Write(s)] else []
  }

  /** A single write accounts for its bytes. */
  lemma WriteConsumed(s: string)
    ensures Consumed([Write(s)]) == s
    ensures Consumed(WriteIfAny(s)) == s
  {
    assert Consumed([Write(s)]) == s + Consumed([]);
  }

  /** The effects of the inner loop of `inPipe` on one chunk `data`: the text
      before the first prefix is written, and the rest starts a sequence.
      Every byte of the chunk is accounted for, in order: written, or part of
      a sequence whose size the callback accepted. */
  function ProcessChunk(data: string, ok: (int, int) -> bool): (r: seq<Effect>)
    ensures Consumed(r) == data
    ensures Decoded(r, ok)
    ensures Anchored(r)
    ensures RefusalEnds(r)
    decreases |data|, 3
  {
    var i := IndexOf(data, EscapeWindowChangePrefix);
    if i == -1 then
      WriteConsumed(data);
      [Write(data)]
    else
      var s := data[i..];
      assert s[..|EscapeWindowChangePrefix|] == data[i..i + |EscapeWindowChangePrefix|];
      var effects := ProcessSequence(s, ok);
      WriteConsumed(data[..i]);
      ProjectionsAppend(WriteIfAny(data[..i]), effects);
      DecodedAppend(WriteIfAny(data[..i]), effects, ok);
      AnchoredAppend(WriteIfAny(data[..i]), effects);
      RefusalEndsAfter(WriteIfAny(data[..i]), effects);
      CutJoins(data, i);
      WriteIfAny(data[..i]) + effects
  }

  /** The rest of a chunk from a prefix on: without a `t` after the prefix it is
      written as it is; otherwise the bytes up to the first `t` are a candidate,
      and only the payload after the candidate's last prefix is decoded. */
  function ProcessSequence(s: string, ok: (int, int) -> bool): (r: seq<Effect>)
    requires OccursAt(s, EscapeWindowChangePrefix, 0)
    ensures Consumed(r) == s
    ensures Decoded(r, ok)
    ensures Anchored(r)
    ensures RefusalEnds(r)
    decreases |s|, 2
  {
    var prefix := EscapeWindowChangePrefix;
    var e := IndexOfCharFrom(s, EscapeWindowChangeSuffix, |prefix|);
    if e == |s| then
      WriteConsumed(s);
      [Write(s)]
    else
      var candidate := s[..e];
      assert candidate[..|prefix|] == s[..|prefix|];
      assert OccursAt(candidate, prefix, 0);
      var j := LastIndexOf(candidate, prefix);
      CandidateSplit(s, e, j);
      HandleSequence(candidate[..j], candidate[j + |prefix|..], s[e + 1..], ok)
  }

  /** A chunk tail whose first `t` is at `e`, split at a prefix at `j` before it. */
  lemma CandidateSplit(s: string, e: nat, j: int)
    requires e < |s| && s[e] == EscapeWindowChangeSuffix
    requires OccursAt(s[..e], EscapeWindowChangePrefix, j)
    ensures s == s[..e][..j] + SequenceBytes(s[..e][j + |EscapeWindowChangePrefix|..], s[e + 1..])
  {
    var n := |EscapeWindowChangePrefix|;
    var candidate := s[..e];
    assert candidate[j..j + n] == EscapeWindowChangePrefix;
    assert candidate == candidate[..j] + candidate[j..j + n] + candidate[j + n..];
    assert s == candidate + [s[e]] + s[e + 1..];
  }

  /** The bytes of a control sequence with payload `text`, followed by the
      rest of the chunk. */
  function SequenceBytes(text: string, rest: string): string
  {
    SequenceOf(text) + rest
  }

  /** `stale` followed by the sequence bytes of `text` and the rest of the
      chunk, where the prefix shown is the last one before the first `t`. The
      bytes before it are written as they are, then the payload is decoded. */
  function HandleSequence(stale: string, text: string, rest: string, ok: (int, int) -> bool): (r: seq<Effect>)
    ensures Consumed(r) == stale + SequenceBytes(text, rest)
    ensures Decoded(r, ok)
    ensures Anchored(r)
    ensures RefusalEnds(r)
    decreases |stale| + |SequenceBytes(text, rest)|, 1
  {
    var after := Decode(text, rest, ok);
    WriteConsumed(stale);
    ProjectionsAppend(WriteIfAny(stale), after);
    DecodedAppend(WriteIfAny(stale), after, ok);
    AnchoredAppend(WriteIfAny(stale), after);
    RefusalEndsAfter(WriteIfAny(stale), after);
    WriteIfAny(stale) + after
  }

  /** A decoded size the callback accepted consumes the sequence, and processing
      goes on with the rest of the chunk; otherwise the sequence and everything
      after it are written as they are. */
  function Decode(text: string, rest: string, ok: (int, int) -> bool): (r: seq<Effect>)
    ensures Consumed(r) == SequenceBytes(text, rest)
    ensures Decoded(r, ok)
    ensures Anchored(r)
    ensures RefusalEnds(r)
    decreases |SequenceBytes(text, rest)|, 0
  {
    var raw := SequenceBytes(text, rest);
    match ProcWindowChangeEvent(text, ok)
    case Applied(rows, cols) =>
      var tail := ProcessChunk(rest, ok);
      AcceptedStep(text, rows, cols, rest, tail, ok);
      [Resize(text, rows, cols, true)] + tail
    case Refused(rows, cols) =>
      RefusedStep(text, rows, cols, rest, raw, ok);
      [Resize(text, rows, cols, false), Write(raw)]
    case Malformed =>
      WriteConsumed(raw);
      [Write(raw)]
  }

  /** An accepted size, then the rest of the chunk: the whole sequence is
      consumed, and the resize is the payload's decoding. */
  lemma AcceptedStep(text: string, rows: int, cols: int, rest: string, tail: seq<Effect>, ok: (int, int) -> bool)
    requires ProcWindowChangeEvent(text, ok) == Applied(rows, cols)
    requires Consumed(tail) == rest && Decoded(tail, ok) && Anchored(tail) && RefusalEnds(tail)
    ensures Consumed([Resize(text, rows, cols, true)] + tail) == SequenceBytes(text, rest)
    ensures Decoded([Resize(text, rows, cols, true)] + tail, ok)
    ensures Anchored([Resize(text, rows, cols, true)] + tail)
    ensures RefusalEnds([Resize(text, rows, cols, true)] + tail)
  {
    assert ([Resize(text, rows, cols, true)] + tail)[1..] == tail;
    ResizeDecoded(text, ok);
    DecodedAppend([Resize(text, rows, cols, true)], tail, ok);
    AnchoredAppend([Resize(text, rows, cols, true)], tail);
    RefusalEndsAfter([Resize(text, rows, cols, true)], tail);
  }

  /** The write after a refused size starts with that size's sequence. */
  lemma RefusedAnchored(text: string, rows: int, cols: int, rest: string, raw: string)
    requires raw == SequenceBytes(text, rest)
    ensures Anchored([Resize(text, rows, cols, false), Write(raw)])
  {
    assert raw[..|SequenceOf(text)|] == SequenceOf(text);
  }

  /** A refused size, then the sequence written as it is: the bytes are
      consumed by the write, and the resize is the payload's decoding. */
  lemma RefusedStep(text: string, rows: int, cols: int, rest: string, raw: string, ok: (int, int) -> bool)
    requires ProcWindowChangeEvent(text, ok) == Refused(rows, cols)
    requires raw == SequenceBytes(text, rest)
    ensures Consumed([Resize(text, rows, cols, false), Write(raw)]) == raw
    ensures Decoded([Resize(text, rows, cols, false), Write(raw)], ok)
    ensures Anchored([Resize(text, rows, cols, false), Write(raw)])
    ensures RefusalEnds([Resize(text, rows, cols, false), Write(raw)])
  {
    RefusedAnchored(text, rows, cols, rest, raw);
    RefusalEndsPair(Resize(text, rows, cols, false), raw);
    assert [Resize(text, rows, cols, false), Write(raw)][1..] == [Write(raw)];
    WriteConsumed(raw);
    ResizeDecoded(text, ok);
  }

  /** A chunk without the sequence's prefix is written as it is, in one write. */
  lemma NoPrefixPassesThrough(data: string, ok: (int, int) -> bool)
    requires PrefixFree(data)
    ensures ProcessChunk(data, ok) == [Write(data)]
  {
  }

  /** The prefix holds ESC only as its first byte, and no `t`. */
  lemma PrefixShape()
    ensures EscapeWindowChangePrefix[0] == ESC
    ensures forall k :: 0 < k < |EscapeWindowChangePrefix| ==> EscapeWindowChangePrefix[k] != ESC
    ensures EscapeWindowChangeSuffix !in EscapeWindowChangePrefix
  {
  }

  /** Text in which the sequence's prefix occurs nowhere; it may hold other
      escape sequences, such as the arrow keys' `ESC [ A`. */
  predicate PrefixFree(data: string)
  {
    forall i :: 0 <= i < |data| ==> !OccursAt(data, EscapeWindowChangePrefix, i)
  }

  /** Text without ESC holds no prefix. */
  lemma NoEscNoPrefix(data: string)
    requires ESC !in data
    ensures PrefixFree(data)
  {
    forall i
      ensures !OccursAt(data, EscapeWindowChangePrefix, i)
    {
      if 0 <= i && i + |EscapeWindowChangePrefix| <= |data| {
        assert data[i..i + |EscapeWindowChangePrefix|][0] == data[i];
      }
    }
  }

  /** In prefix-free text followed by the prefix, the first prefix is where
      the text ends: no prefix can start inside the text and run into the next
      one, since the prefix holds ESC only at its start. */
  lemma FirstPrefixAt(a: string, rest: string)
    requires PrefixFree(a)
    requires OccursAt(rest, EscapeWindowChangePrefix, 0)
    ensures IndexOf(a + rest, EscapeWindowChangePrefix) == |a|
    ensures (a + rest)[..|a|] == a && (a + rest)[|a|..] == rest
  {
    var data := a + rest;
    var prefix := EscapeWindowChangePrefix;
    var n := |prefix|;
    PrefixShape();
    assert data[|a|..|a| + n] == rest[..n];
    assert OccursAt(data, prefix, |a|);
    forall i | 0 <= i < |a|
      ensures !OccursAt(data, prefix, i)
    {
      if i + n <= |data| {
        if i + n <= |a| {
          assert data[i..i + n] == a[i..i + n] && !OccursAt(a, prefix, i);
        } else {
          assert data[i..i + n][|a| - i] == rest[0] == ESC != prefix[|a| - i];
        }
      }
    }
  }

  /** Prefix-free text after a prefix: that prefix is the last one. */
  lemma LastPrefixAt(x: string, text: string)
    requires PrefixFree(text)
    ensures LastIndexOf(x + EscapeWindowChangePrefix + text, EscapeWindowChangePrefix) == |x|
  {
    var prefix := EscapeWindowChangePrefix;
    var n := |prefix|;
    var s := x + prefix + text;
    PrefixShape();
    assert s[|x|..|x| + n] == prefix;
    assert OccursAt(s, prefix, |x|);
    forall i | |x| < i
      ensures !OccursAt(s, prefix, i)
    {
      if i + n <= |s| {
        if i < |x| + n {
          assert s[i..i + n][0] == prefix[i - |x|] != ESC;
        } else {
          assert s[i..i + n] == text[i - |x| - n..i - |x|];
          assert !OccursAt(text, prefix, i - |x| - n);
        }
      }
    }
  }

  /** The first `t` at or after the prefix's length, in a candidate free of
      `t` followed by `t`, is the one right after the candidate. */
  lemma SuffixAfter(candidate: string, rest: string)
    requires |candidate| >= |EscapeWindowChangePrefix|
    requires EscapeWindowChangeSuffix !in candidate
    ensures
      var s := candidate + [EscapeWindowChangeSuffix] + rest;
      IndexOfCharFrom(s, EscapeWindowChangeSuffix, |EscapeWindowChangePrefix|) == |candidate|
  {
    var s := candidate + [EscapeWindowChangeSuffix] + rest;
    assert s[|candidate|] == EscapeWindowChangeSuffix;
    assert forall k :: 0 <= k < |candidate| ==> s[k] == candidate[k];
  }

  /** Prefix-free text before a prefix: the text is written and the rest starts a sequence. */
  lemma ChunkStartsSequence(a: string, s: string, ok: (int, int) -> bool)
    requires PrefixFree(a)
    requires OccursAt(s, EscapeWindowChangePrefix, 0)
    ensures ProcessChunk(a + s, ok) == WriteIfAny(a) + ProcessSequence(s, ok)
  {
    FirstPrefixAt(a, s);
  }

  /** A sequence tail `stale + prefix + text + t + rest` in which the prefix
      shown is the last before the first `t`: it is handled as such. */
  lemma {:induction false} SequenceFound(stale: string, text: string, rest: string, ok: (int, int) -> bool)
    requires |stale| == 0 || OccursAt(stale, EscapeWindowChangePrefix, 0)
    requires EscapeWindowChangeSuffix !in stale
    requires PrefixFree(text) && EscapeWindowChangeSuffix !in text
    ensures OccursAt(stale + SequenceBytes(text, rest), EscapeWindowChangePrefix, 0)
    ensures ProcessSequence(stale + SequenceBytes(text, rest), ok) == HandleSequence(stale, text, rest, ok)
  {
    SequenceShape(stale, text, rest);
    CandidateShape(stale, text);
  }

  /** Where the first `t` of a sequence tail is, and what lies around it. */
  lemma SequenceShape(stale: string, text: string, rest: string)
    requires |stale| == 0 || OccursAt(stale, EscapeWindowChangePrefix, 0)
    requires EscapeWindowChangeSuffix !in stale
    requires EscapeWindowChangeSuffix !in text
    ensures
      var s := stale + SequenceBytes(text, rest);
      var e := |stale + EscapeWindowChangePrefix + text|;
      && OccursAt(s, EscapeWindowChangePrefix, 0)
      && IndexOfCharFrom(s, EscapeWindowChangeSuffix, |EscapeWindowChangePrefix|) == e
      && s[..e] == stale + EscapeWindowChangePrefix + text
      && s[e + 1..] == rest
  {
    var prefix := EscapeWindowChangePrefix;
    var n := |prefix|;
    var s := stale + SequenceBytes(text, rest);
    var candidate := stale + prefix + text;
    assert s == candidate + [EscapeWindowChangeSuffix] + rest;
    assert s[..n] == candidate[..n];
    assert candidate[..n] == if |stale| == 0 then prefix else stale[..n];
    PrefixShape();
    assert EscapeWindowChangeSuffix !in candidate;
    SuffixAfter(candidate, rest);
    assert s[..|candidate|] == candidate;
    assert s[|candidate| + 1..] == rest;
  }

  /** The candidate `stale + prefix + text` splits at its last prefix into `stale` and `text`. */
  lemma CandidateShape(stale: string, text: string)
    requires PrefixFree(text)
    ensures
      var candidate := stale + EscapeWindowChangePrefix + text;
      var j := LastIndexOf(candidate, EscapeWindowChangePrefix);
      && j == |stale|
      && candidate[..j] == stale
      && candidate[j + |EscapeWindowChangePrefix|..] == text
  {
    var candidate := stale + EscapeWindowChangePrefix + text;
    LastPrefixAt(stale, text);
    assert candidate[..|stale|] == stale;
    assert candidate[|stale| + |EscapeWindowChangePrefix|..] == text;
  }

  /** How one control sequence is handled. `a` is the text before it, holding
      no prefix; `stale` is empty or starts with the prefix and holds no `t`; `text`
      is the payload after the last prefix before the first `t`. */
  lemma SequenceHandled(a: string, stale: string, text: string, b: string, ok: (int, int) -> bool)
    requires PrefixFree(a)
    requires |stale| == 0 || OccursAt(stale, EscapeWindowChangePrefix, 0)
    requires EscapeWindowChangeSuffix !in stale
    requires PrefixFree(text) && EscapeWindowChangeSuffix !in text
    ensures ProcessChunk(a + (stale + SequenceBytes(text, b)), ok)
         == WriteIfAny(a) + (WriteIfAny(stale) + Decode(text, b, ok))
  {
    SequenceFound(stale, text, b, ok);
    ChunkStartsSequence(a, stale + SequenceBytes(text, b), ok);
  }

  /** A write of `s`, if any, shows up as `s` and calls nothing. */
  lemma WriteProjections(s: string)
    ensures Output(WriteIfAny(s)) == s && Calls(WriteIfAny(s)) == []
    ensures Output([Write(s)]) == s && Calls([Write(s)]) == []
  {
    assert Output([Write(s)]) == s + Output([]);
  }

  /** The text of a size holds neither ESC nor `t`. */
  lemma WindowChangeTextAvoids(rows: int, cols: int)
    ensures ESC !in WindowChangeText(rows, cols)
    ensures EscapeWindowChangeSuffix !in WindowChangeText(rows, cols)
    ensures PrefixFree(WindowChangeText(rows, cols))
  {
    ItoaAvoids(rows);
    ItoaAvoids(cols);
    NoEscNoPrefix(WindowChangeText(rows, cols));
  }

  /** What happens after a well-formed sequence's last prefix. */
  lemma DecodeWindowChange(rows: int, cols: int, b: string, ok: (int, int) -> bool)
    ensures
      var text := WindowChangeText(rows, cols);
      Decode(text, b, ok)
      == if ok(rows, cols) then [Resize(text, rows, cols, true)] + ProcessChunk(b, ok)
         else [Resize(text, rows, cols, false), Write(SequenceBytes(text, b))]
  {
    WindowChangeRoundTrip(rows, cols, ok);
  }

  /** A complete, well-formed sequence after prefix-free text: the text is written,
      the size goes to the callback, and the sequence is consumed when the size
      is accepted or written as it is, with the rest of the chunk, when not. */
  lemma ResizeDetected(a: string, rows: int, cols: int, b: string, ok: (int, int) -> bool)
    requires PrefixFree(a)
    ensures
      var text := WindowChangeText(rows, cols);
      ProcessChunk(a + SequenceBytes(text, b), ok)
      == WriteIfAny(a) +
         if ok(rows, cols) then [Resize(text, rows, cols, true)] + ProcessChunk(b, ok)
         else [Resize(text, rows, cols, false), Write(SequenceBytes(text, b))]
  {
    var text := WindowChangeText(rows, cols);
    WindowChangeTextAvoids(rows, cols);
    SequenceHandled(a, "", text, b, ok);
    NoStale(SequenceBytes(text, b), Decode(text, b, ok));
    DecodeWindowChange(rows, cols, b, ok);
  }

  /** Projections of "write `a`, write `stale`, an accepted size, then `rest`". */
  lemma AcceptedShape(a: string, stale: string, text: string, rows: int, cols: int, rest: seq<Effect>)
    ensures
      var effects := WriteIfAny(a) + (WriteIfAny(stale) + ([Resize(text, rows, cols, true)] + rest));
      && Output(effects) == a + stale + Output(rest)
      && Calls(effects) == [(rows, cols)] + Calls(rest)
  {
    var tail := [Resize(text, rows, cols, true)] + rest;
    AcceptedProjections(text, rows, cols, rest);
    WriteBefore(stale, tail);
    WriteBefore(a, WriteIfAny(stale) + tail);
    ConcatAssoc(a, stale, Output(rest));
  }

  /** An accepted size writes nothing and is passed on. */
  lemma AcceptedProjections(text: string, rows: int, cols: int, rest: seq<Effect>)
    ensures Output([Resize(text, rows, cols, true)] + rest) == Output(rest)
    ensures Calls([Resize(text, rows, cols, true)] + rest) == [(rows, cols)] + Calls(rest)
  {
    var resize := [Resize(text, rows, cols, true)];
    ProjectionsAppend(resize, rest);
    assert Output(resize) == "" + Output([]);
    assert Calls(resize) == [(rows, cols)] + Calls([]);
  }

  /** A write in front adds its bytes to the output and no size. */
  lemma WriteBefore(s: string, rest: seq<Effect>)
    ensures Output(WriteIfAny(s) + rest) == s + Output(rest)
    ensures Calls(WriteIfAny(s) + rest) == Calls(rest)
  {
    ProjectionsAppend(WriteIfAny(s), rest);
    WriteProjections(s);
  }

  /** Of several prefixes before the first `t`, only the last starts the
      sequence: the bytes before it are written as they are, and the size
      after it is the one passed on. */
  lemma LastPrefixWins(a: string, stale: string, rows: int, cols: int, b: string, ok: (int, int) -> bool)
    requires PrefixFree(a)
    requires OccursAt(stale, EscapeWindowChangePrefix, 0) && EscapeWindowChangeSuffix !in stale
    requires ok(rows, cols)
    ensures
      var effects := ProcessChunk(a + (stale + SequenceBytes(WindowChangeText(rows, cols), b)), ok);
      && Output(effects) == a + stale + Output(ProcessChunk(b, ok))
      && Calls(effects) == [(rows, cols)] + Calls(ProcessChunk(b, ok))
  {
    var text := WindowChangeText(rows, cols);
    WindowChangeTextAvoids(rows, cols);
    SequenceHandled(a, stale, text, b, ok);
    DecodeWindowChange(rows, cols, b, ok);
    AcceptedShape(a, stale, text, rows, cols, ProcessChunk(b, ok));
  }

  /** A sequence whose payload does not decode is written as it is, with the
      rest of the chunk, and no size is passed on. */
  lemma MalformedPassesThrough(a: string, text: string, b: string, ok: (int, int) -> bool)
    requires PrefixFree(a)
    requires PrefixFree(text) && EscapeWindowChangeSuffix !in text
    requires !IsWindowChange(text)
    ensures Output(ProcessChunk(a + SequenceBytes(text, b), ok)) == a + SequenceBytes(text, b)
    ensures Calls(ProcessChunk(a + SequenceBytes(text, b), ok)) == []
  {
    var raw := SequenceBytes(text, b);
    MalformedChunk(a, text, b, ok);
    ProjectionsAppend(WriteIfAny(a), [Write(raw)]);
    WriteProjections(a);
    WriteProjections(raw);
  }

  /** The effects of a chunk whose only sequence does not decode. */
  lemma MalformedChunk(a: string, text: string, b: string, ok: (int, int) -> bool)
    requires PrefixFree(a)
    requires PrefixFree(text) && EscapeWindowChangeSuffix !in text
    requires !IsWindowChange(text)
    ensures ProcessChunk(a + SequenceBytes(text, b), ok) == WriteIfAny(a) + [Write(SequenceBytes(text, b))]
  {
    SequenceHandled(a, "", text, b, ok);
    MalformedDecode(text, b, ok);
    NoStale(SequenceBytes(text, b), Decode(text, b, ok));
  }

  /** A payload that does not decode leaves its sequence and the rest written as they are. */
  lemma MalformedDecode(text: string, b: string, ok: (int, int) -> bool)
    requires !IsWindowChange(text)
    ensures Decode(text, b, ok) == [Write(SequenceBytes(text, b))]
  {
  }

  /** No stale prefixes: nothing comes before the sequence. */
  lemma NoStale(raw: string, effects: seq<Effect>)
    ensures "" + raw == raw && WriteIfAny("") + effects == effects
  {
  }

  /** A size the callback refuses leaves the sequence and the rest of the chunk
      written as they are; the call was still made. */
  lemma RefusedPassesThrough(a: string, rows: int, cols: int, b: string, ok: (int, int) -> bool)
    requires PrefixFree(a)
    requires !ok(rows, cols)
    ensures
      var data := a + SequenceBytes(WindowChangeText(rows, cols), b);
      Output(ProcessChunk(data, ok)) == data && Calls(ProcessChunk(data, ok)) == [(rows, cols)]
  {
    var text := WindowChangeText(rows, cols);
    var raw := SequenceBytes(text, b);
    ResizeDetected(a, rows, cols, b, ok);
    var tail := [Resize(text, rows, cols, false), Write(raw)];
    assert tail[1..] == [Write(raw)];
    WriteProjections(raw);
    assert Output(tail) == "" + Output([Write(raw)]);
    assert Calls(tail) == [(rows, cols)] + Calls([Write(raw)]);
    ProjectionsAppend(WriteIfAny(a), tail);
    WriteProjections(a);
  }

  /** A sequence with no `t` after its prefix is written as it is. */
  lemma NoSuffixWritten(p: string, ok: (int, int) -> bool)
    requires EscapeWindowChangeSuffix !in p
    ensures OccursAt(EscapeWindowChangePrefix + p, EscapeWindowChangePrefix, 0)
    ensures ProcessSequence(EscapeWindowChangePrefix + p, ok) == [Write(EscapeWindowChangePrefix + p)]
  {
    var prefix := EscapeWindowChangePrefix;
    var s := prefix + p;
    assert s[..|prefix|] == prefix;
    assert forall k :: |prefix| <= k < |s| ==> s[k] == p[k - |prefix|];
    assert IndexOfCharFrom(s, EscapeWindowChangeSuffix, |prefix|) == |s|;
  }

  /** A chunk that ends inside a sequence (no `t` after the prefix) is written
      as it is, and no size is passed on. */
  lemma IncompleteSequenceForwarded(a: string, p: string, ok: (int, int) -> bool)
    requires PrefixFree(a)
    requires EscapeWindowChangeSuffix !in p
    ensures ProcessChunk(a + (EscapeWindowChangePrefix + p), ok) == WriteIfAny(a) + [Write(EscapeWindowChangePrefix + p)]
  {
    NoSuffixWritten(p, ok);
    ChunkStartsSequence(a, EscapeWindowChangePrefix + p, ok);
  }

  /** Every size passed to the callback for a chunk comes from a control
      sequence of that chunk: its payload, framed by the prefix and `t`,
      occurs in the chunk, and the size is that payload's decoding. */
  lemma ChunkResizesFromInput(data: string, ok: (int, int) -> bool)
    ensures forall k :: 0 <= k < |ProcessChunk(data, ok)| && ProcessChunk(data, ok)[k].Resize? ==>
      && (exists i :: OccursAt(data, SequenceOf(ProcessChunk(data, ok)[k].payload), i))
      && DecodedEffect(ProcessChunk(data, ok)[k], ok)
  {
    ResizesOccur(ProcessChunk(data, ok));
  }

  /** In a trace whose refusals are anchored and end it, the write after a
      refused size is the last effect and carries every byte not consumed
      before the refusal. */
  lemma RefusalWritesRest(t: seq<Effect>)
    requires Anchored(t) && RefusalEnds(t)
    ensures forall k :: 0 <= k < |t| && t[k].Resize? && !t[k].accepted ==>
      && k + 2 == |t|
      && t[k + 1].Write?
      && Consumed(t) == Consumed(t[..k]) + t[k + 1].bytes
  {
    forall k | 0 <= k < |t| && t[k].Resize? && !t[k].accepted
      ensures Consumed(t) == Consumed(t[..k]) + t[k + 1].bytes
    {
      assert t == t[..k] + [t[k], Write(t[k + 1].bytes)];
      ConsumedRefusedPair(t[..k], t[k], t[k + 1].bytes);
    }
  }

  /** A refused size followed by a write consumes that write's bytes only. */
  lemma ConsumedRefusedPair(a: seq<Effect>, e: Effect, bytes: string)
    requires e.Resize? && !e.accepted
    ensures Consumed(a + [e, Write(bytes)]) == Consumed(a) + bytes
  {
    var pair := [e, Write(bytes)];
    assert pair[1..] == [Write(bytes)];
    WriteConsumed(bytes);
    assert EffectBytes(e) == "";
    assert Consumed(pair) == bytes;
    ConsumedAppend(a, pair);
  }

  /** When the callback refuses a size, `inPipe` writes the rest of the chunk,
      from that size's sequence on, in one write and stops looking. */
  lemma ChunkRefusalWritesRest(data: string, ok: (int, int) -> bool)
    ensures forall k :: 0 <= k < |ProcessChunk(data, ok)| && ProcessChunk(data, ok)[k].Resize?
                        && !ProcessChunk(data, ok)[k].accepted ==>
      && k + 2 == |ProcessChunk(data, ok)|
      && ProcessChunk(data, ok)[k + 1].Write?
      && OccursAt(ProcessChunk(data, ok)[k + 1].bytes, SequenceOf(ProcessChunk(data, ok)[k].payload), 0)
      && data == Consumed(ProcessChunk(data, ok)[..k]) + ProcessChunk(data, ok)[k + 1].bytes
  {
    RefusalWritesRest(ProcessChunk(data, ok));
  }

  /** Whether a chunk's output is the chunk itself: exactly when the callback
      accepted none of the sizes found in it. */
  lemma ChunkOutputIffNoneAccepted(data: string, ok: (int, int) -> bool)
    ensures Output(ProcessChunk(data, ok)) == data <==> NoneAccepted(ProcessChunk(data, ok))
  {
    OutputIsConsumedIffNoneAccepted(ProcessChunk(data, ok));
  }

  /** The same in terms of the callback: a chunk is written unchanged exactly
      when the callback refused every size it was passed for it. */
  lemma ChunkOutputIffAllRefused(data: string, ok: (int, int) -> bool)
    ensures Output(ProcessChunk(data, ok)) == data
        <==> forall c :: c in Calls(ProcessChunk(data, ok)) ==> !ok(c.0, c.1)
  {
    ChunkOutputIffNoneAccepted(data, ok);
    NoneAcceptedIffAllRefused(ProcessChunk(data, ok), ok);
  }

  // ---------------------------------------------------------------------------
  // The whole input

  /** `inPipe`: the chunks the reader returns, one after the other. */
  function InPipe(chunks: seq<string>, ok: (int, int) -> bool): seq<Effect>
  {
    if |chunks| == 0 then [] else ProcessChunk(chunks[0], ok) + InPipe(chunks[1..], ok)
  }

  function Concat(chunks: seq<string>): string
  {
    if |chunks| == 0 then "" else chunks[0] + Concat(chunks[1..])
  }

  /** Reading more chunks only adds effects at the end: chunks are independent. */
  lemma {:induction false} InPipeAppend(xs: seq<string>, ys: seq<string>, ok: (int, int) -> bool)
    ensures InPipe(xs + ys, ok) == InPipe(xs, ok) + InPipe(ys, ok)
    decreases |xs|
  {
    if |xs| > 0 {
      InPipeStep(xs, ys, ok);
      InPipeAppend(xs[1..], ys, ok);
      ConcatAssoc(ProcessChunk(xs[0], ok), InPipe(xs[1..], ok), InPipe(ys, ok));
    } else {
      assert xs + ys == ys;
    }
  }

  /** The first chunk of `xs + ys` is handled first. */
  lemma InPipeStep(xs: seq<string>, ys: seq<string>, ok: (int, int) -> bool)
    requires |xs| > 0
    ensures InPipe(xs + ys, ok) == ProcessChunk(xs[0], ok) + InPipe(xs[1..] + ys, ok)
    ensures InPipe(xs, ok) == ProcessChunk(xs[0], ok) + InPipe(xs[1..], ok)
  {
    assert (xs + ys)[0] == xs[0];
    assert (xs + ys)[1..] == xs[1..] + ys;
  }

  /** All input is accounted for: written, or consumed by a sequence whose
      payload decoded to a size the callback accepted. Every size passed on
      was decoded from a payload, and is marked accepted as `ok` answers. */
  lemma {:induction false} InPipeConserved(chunks: seq<string>, ok: (int, int) -> bool)
    ensures Consumed(InPipe(chunks, ok)) == Concat(chunks)
    ensures Decoded(InPipe(chunks, ok), ok)
    ensures Anchored(InPipe(chunks, ok))
    decreases |chunks|
  {
    if |chunks| > 0 {
      InPipeConserved(chunks[1..], ok);
      ProjectionsAppend(ProcessChunk(chunks[0], ok), InPipe(chunks[1..], ok));
      DecodedAppend(ProcessChunk(chunks[0], ok), InPipe(chunks[1..], ok), ok);
      AnchoredAppend(ProcessChunk(chunks[0], ok), InPipe(chunks[1..], ok));
    }
  }

  /** Across reads, every size passed to the callback comes from a control
      sequence of the input, and is that sequence's decoding. */
  lemma InPipeResizesFromInput(chunks: seq<string>, ok: (int, int) -> bool)
    ensures forall k :: 0 <= k < |InPipe(chunks, ok)| && InPipe(chunks, ok)[k].Resize? ==>
      && (exists i :: OccursAt(Concat(chunks), SequenceOf(InPipe(chunks, ok)[k].payload), i))
      && DecodedEffect(InPipe(chunks, ok)[k], ok)
  {
    InPipeConserved(chunks, ok);
    ResizesOccur(InPipe(chunks, ok));
  }

  /** The input is written unchanged, across all reads, exactly when the
      callback refused every size it was passed. */
  lemma InPipeOutputIffAllRefused(chunks: seq<string>, ok: (int, int) -> bool)
    ensures Output(InPipe(chunks, ok)) == Concat(chunks)
        <==> forall c :: c in Calls(InPipe(chunks, ok)) ==> !ok(c.0, c.1)
  {
    InPipeConserved(chunks, ok);
    OutputIsConsumedIffNoneAccepted(InPipe(chunks, ok));
    NoneAcceptedIffAllRefused(InPipe(chunks, ok), ok);
  }

  /** The effects of two reads. */
  lemma InPipeTwo(x: string, y: string, ok: (int, int) -> bool)
    ensures InPipe([x, y], ok) == ProcessChunk(x, ok) + ProcessChunk(y, ok)
  {
    assert [x, y][1..] == [y];
    assert [y][1..] == [];
    assert InPipe([y], ok) == ProcessChunk(y, ok) + [];
    assert ProcessChunk(y, ok) + [] == ProcessChunk(y, ok);
  }

  /** A sequence torn across two reads is not recognised: both halves are
      written as they are and no size is passed on. */
  lemma SplitSequenceForwarded(a: string, p: string, q: string, ok: (int, int) -> bool)
    requires PrefixFree(a) && PrefixFree(q)
    requires EscapeWindowChangeSuffix !in p
    ensures
      var effects := InPipe([a + (EscapeWindowChangePrefix + p), q], ok);
      Output(effects) == a + (EscapeWindowChangePrefix + p) + q && Calls(effects) == []
  {
    var first := a + (EscapeWindowChangePrefix + p);
    IncompleteSequenceForwarded(a, p, ok);
    InPipeTwo(first, q, ok);
    WriteProjections(a);
    WriteProjections(EscapeWindowChangePrefix + p);
    WriteProjections(q);
    ProjectionsAppend(WriteIfAny(a), [Write(EscapeWindowChangePrefix + p)]);
    ProjectionsAppend(ProcessChunk(first, ok), [Write(q)]);
  }

  /** The input of one or two reads, joined. */
  lemma ConcatSmall(x: string, y: string)
    ensures Concat([x]) == x && Concat([x, y]) == x + y
  {
    assert [x][1..] == [];
    assert [x, y][1..] == [y];
    assert [y][1..] == [];
    assert x + "" == x;
    assert y + "" == y;
  }

  /** The effects of a single read. */
  lemma InPipeOne(x: string, ok: (int, int) -> bool)
    ensures InPipe([x], ok) == ProcessChunk(x, ok)
  {
    assert [x][1..] == [];
    assert ProcessChunk(x, ok) + [] == ProcessChunk(x, ok);
  }

  /** `ESC [ 8 ; 120 ; 32 t` as a chunk of its own: an accepted size, then an empty write. */
  lemma WholeSequenceChunk(ok: (int, int) -> bool)
    requires ok(120, 32)
    ensures ProcessChunk(EscapeWindowChangePrefix + "120;32t", ok) == [Resize("120;32", 120, 32, true), Write("")]
  {
    assert NatToDigits(1) == "1";
    assert NatToDigits(12) == "12";
    assert NatToDigits(3) == "3";
    assert WindowChangeText(120, 32) == "120;32";
    assert "" + SequenceBytes("120;32", "") == EscapeWindowChangePrefix + "120;32t";
    ResizeDetected("", 120, 32, "", ok);
    assert ProcessChunk("", ok) == [Write("")];
  }

  /** Read at once, the sequence resizes the window and nothing is written. */
  lemma WholeSequenceResizes(ok: (int, int) -> bool)
    requires ok(120, 32)
    ensures Calls(InPipe([EscapeWindowChangePrefix + "120;32t"], ok)) == [(120, 32)]
    ensures Output(InPipe([EscapeWindowChangePrefix + "120;32t"], ok)) == ""
  {
    var effects := [Resize("120;32", 120, 32, true), Write("")];
    WholeSequenceChunk(ok);
    InPipeOne(EscapeWindowChangePrefix + "120;32t", ok);
    assert effects[1..] == [Write("")];
    WriteProjections("");
    assert Output(effects) == "" + Output([Write("")]);
    assert Calls(effects) == [(120, 32)] + Calls([Write("")]);
  }

  /** Read in two pieces, the same bytes are written as they are. */
  lemma TornSequenceForwarded(ok: (int, int) -> bool)
    ensures Calls(InPipe([EscapeWindowChangePrefix + "120", ";32t"], ok)) == []
    ensures Output(InPipe([EscapeWindowChangePrefix + "120", ";32t"], ok)) == EscapeWindowChangePrefix + "120;32t"
  {
    NoEscNoPrefix(";32t");
    SplitSequenceForwarded("", "120", ";32t", ok);
    TornChunks();
  }

  /** The two pieces of the torn sequence, joined, are the whole one. */
  lemma TornChunks()
    ensures "" + (EscapeWindowChangePrefix + "120") == EscapeWindowChangePrefix + "120"
    ensures EscapeWindowChangePrefix + "120" + ";32t" == EscapeWindowChangePrefix + "120;32t"
  {
    assert "" + (EscapeWindowChangePrefix + "120") == EscapeWindowChangePrefix + "120";
  }

  /** The same bytes resize the window when read at once and do not when read
      in two pieces: the result depends on where reads end. */
  lemma ReadBoundaryMatters(ok: (int, int) -> bool)
    requires ok(120, 32)
    ensures Calls(InPipe([EscapeWindowChangePrefix + "120;32t"], ok))
         != Calls(InPipe([EscapeWindowChangePrefix + "120", ";32t"], ok))
    ensures Concat([EscapeWindowChangePrefix + "120;32t"]) == Concat([EscapeWindowChangePrefix + "120", ";32t"])
  {
    WholeSequenceResizes(ok);
    TornSequenceForwarded(ok);
    ConcatSmall(EscapeWindowChangePrefix + "120", ";32t");
    ConcatSmall(EscapeWindowChangePrefix + "120;32t", "");
    TornChunks();
  }
}
