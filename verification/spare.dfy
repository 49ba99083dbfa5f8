/** hostkey.go `spareSpace`: moving the tail of a file in place, through a
    buffer of `bufferSize` bytes, so that a replacement for the span
    `[keepBefore, keepAfter)` of `requiredSpace` bytes fits. */
module Spare {
  import opened Wrappers
  import opened Files

  /** `Truncate` to a negative size, the one failure left once I/O cannot fail. */
  datatype SpareError = NegativeSize

  /** How many bytes the file grows (positive) or shrinks (negative) by. */
  function LengthDiff(keepBefore: nat, keepAfter: nat, requiredSpace: nat): int
  {
    requiredSpace - (keepAfter - keepBefore)
  }

  /** The intended contents once the tail `file[keepAfter..]` has moved by `d`:
      the old file, zero-padded, up to `keepAfter + d`, then the tail. */
  function Moved(file: string, keepAfter: nat, d: int): (r: string)
    requires keepAfter <= |file| && keepAfter + d >= 0
    ensures |r| == |file| + d
  {
    PadTo(file, keepAfter + d)[..keepAfter + d] + file[keepAfter..]
  }

  /** What `spareSpace` is meant to leave in the file. Nothing happens when the size
      does not change or the file is empty; a `keepAfter` at or past the end leaves
      no tail to move, so growing changes nothing and shrinking only truncates. */
  function Spared(file: string, keepBefore: nat, keepAfter: nat, requiredSpace: nat): (r: Result<string, SpareError>)
    ensures r.Failure? <==> |file| > 0 && |file| + LengthDiff(keepBefore, keepAfter, requiredSpace) < 0
  {
    var d := LengthDiff(keepBefore, keepAfter, requiredSpace);
    if d == 0 || |file| == 0 then Success(file)
    else if keepAfter < |file| then Success(Moved(file, keepAfter, d))
    else if d > 0 then Success(file)
    else if |file| + d < 0 then Failure(NegativeSize)
    else Success(file[..|file| + d])
  }

  // ---------------------------------------------------------------------------
  // Growing: the tail is copied back to front.

  /** Partway through the back-to-front copy: the old bytes from `end` on sit `d`
      higher, and below `end + d` the file still holds its old bytes. */
  predicate GrowAgrees(cur: string, file: string, end: nat, d: nat)
    requires end <= |file|
  {
    && |cur| == (if end == |file| then |file| else |file| + d)
    && forall i :: 0 <= i < |cur| ==> cur[i] == if i < end + d then ByteAt(file, i) else file[i - d]
  }

  lemma GrowAgreesStart(file: string, d: nat)
    ensures GrowAgrees(file, file, |file|, d)
  {
  }

  /** Copying `[start, end)` up by `d` extends the moved part down to `start`. */
  lemma GrowStep(file: string, cur: string, start: nat, end: nat, d: nat)
    requires start < end <= |file| && d > 0
    requires GrowAgrees(cur, file, end, d)
    ensures cur[start..end] == file[start..end]
    ensures GrowAgrees(WriteAt(cur, cur[start..end], start + d), file, start, d)
  {
    var next := WriteAt(cur, cur[start..end], start + d);
    forall i | 0 <= i < |next|
      ensures next[i] == if i < start + d then ByteAt(file, i) else file[i - d]
    {
      if start + d <= i < end + d {
        assert next[i] == cur[i - d];
      }
    }
  }

  lemma GrowDone(file: string, cur: string, keepAfter: nat, d: nat)
    requires keepAfter < |file| && d > 0
    requires GrowAgrees(cur, file, keepAfter, d)
    ensures cur == Moved(file, keepAfter, d)
  {
    var m := Moved(file, keepAfter, d);
    forall i | 0 <= i < |cur|
      ensures cur[i] == m[i]
    {
      if i >= keepAfter + d {
        assert m[i] == file[keepAfter..][i - keepAfter - d];
      }
    }
  }

  /** The grow branch (hostkey.go:236-259), reading exactly the `end - start`
      bytes still to move on every round. */
  method Grow(file: string, keepAfter: nat, d: nat, bufferSize: nat) returns (r: string)
    requires d > 0 && bufferSize > 0
    ensures r == if keepAfter < |file| then Moved(file, keepAfter, d) else file
  {
    r := file;
    var end: nat := |file|;
    GrowAgreesStart(file, d);
    while end > keepAfter
      invariant keepAfter <= end <= |file| || (end == |file| && r == file)
      invariant end <= |file| && GrowAgrees(r, file, end, d)
      decreases end
    {
      var start: nat := if end - bufferSize < keepAfter then keepAfter else end - bufferSize;
      var chunk := ReadAt(r, start, end - start);
      assert chunk == r[start..end];
      GrowStep(file, r, start, end, d);
      r := WriteAt(r, chunk, start + d);
      end := end - |chunk|;
    }
    if keepAfter < |file| {
      GrowDone(file, r, keepAfter, d);
    }
  }

  // ---------------------------------------------------------------------------
  // Shrinking: the tail is copied front to back, then the file is cut.

  /** Partway through the front-to-back copy: the old bytes `[keepAfter, start)`
      sit `-d` lower, and every other byte is still the old one. */
  predicate ShrinkAgrees(cur: string, file: string, keepAfter: nat, start: nat, d: int)
    requires d < 0
  {
    && |cur| == |file|
    && forall i :: 0 <= i < |cur| ==> cur[i] == if keepAfter + d <= i < start + d then ByteAt(file, i - d) else file[i]
  }

  /** Copying `[start, start + n)` down by `-d` extends the moved part up to `start + n`. */
  lemma ShrinkStep(file: string, cur: string, keepAfter: nat, start: nat, n: nat, d: int)
    requires d < 0 && keepAfter <= start && start + n <= |file| && keepAfter + d >= 0
    requires ShrinkAgrees(cur, file, keepAfter, start, d)
    ensures cur[start..start + n] == file[start..start + n]
    ensures ShrinkAgrees(WriteAt(cur, cur[start..start + n], start + d), file, keepAfter, start + n, d)
  {
    ShrinkRead(file, cur, keepAfter, start, n, d);
    ShrinkWrite(file, cur, keepAfter, start, n, d);
  }

  lemma ShrinkRead(file: string, cur: string, keepAfter: nat, start: nat, n: nat, d: int)
    requires d < 0 && keepAfter <= start && start + n <= |file| && keepAfter + d >= 0
    requires ShrinkAgrees(cur, file, keepAfter, start, d)
    ensures cur[start..start + n] == file[start..start + n]
  {
    forall k | start <= k < start + n
      ensures cur[k] == file[k]
    {
    }
  }

  lemma ShrinkWrite(file: string, cur: string, keepAfter: nat, start: nat, n: nat, d: int)
    requires d < 0 && keepAfter <= start && start + n <= |file| && keepAfter + d >= 0
    requires ShrinkAgrees(cur, file, keepAfter, start, d)
    requires cur[start..start + n] == file[start..start + n]
    ensures ShrinkAgrees(WriteAt(cur, cur[start..start + n], start + d), file, keepAfter, start + n, d)
  {
    var next := WriteAt(cur, cur[start..start + n], start + d);
    forall i | 0 <= i < |next|
      ensures next[i] == if keepAfter + d <= i < start + n + d then ByteAt(file, i - d) else file[i]
    {
      if start + d <= i < start + n + d {
        assert next[i] == cur[start..start + n][i - start - d];
      } else {
        assert next[i] == cur[i];
      }
    }
  }

  lemma ShrinkDone(file: string, cur: string, keepAfter: nat, d: int)
    requires d < 0 && keepAfter < |file| && keepAfter + d >= 0
    requires ShrinkAgrees(cur, file, keepAfter, |file|, d)
    ensures Truncate(cur, |file| + d) == Moved(file, keepAfter, d)
  {
    var t := Truncate(cur, |file| + d);
    var m := Moved(file, keepAfter, d);
    forall i | 0 <= i < |t|
      ensures t[i] == m[i]
    {
      if i >= keepAfter + d {
        assert m[i] == file[keepAfter..][i - keepAfter - d];
      }
    }
  }

  /** The shrink branch (hostkey.go:262-285): whole-buffer reads from `keepAfter`
      on, each written `-d` lower, then the file cut to its new size. */
  method Shrink(file: string, keepAfter: nat, d: int, bufferSize: nat) returns (r: Result<string, SpareError>)
    requires d < 0 && keepAfter + d >= 0 && bufferSize > 0
    ensures r.Failure? <==> |file| + d < 0
    ensures r.Failure? ==> r.error == NegativeSize
    ensures r.Success? && keepAfter < |file| ==> r.value == Moved(file, keepAfter, d)
    ensures r.Success? && keepAfter >= |file| ==> r.value == file[..|file| + d]
  {
    var cur := file;
    var start: nat := keepAfter;
    while start < |file|
      invariant keepAfter <= start && (keepAfter <= |file| ==> start <= |file|)
      invariant keepAfter >= |file| ==> start == keepAfter
      invariant ShrinkAgrees(cur, file, keepAfter, start, d)
      decreases |file| - start
    {
      var chunk := ReadAt(cur, start, bufferSize);
      assert chunk == cur[start..start + |chunk|];
      ShrinkStep(file, cur, keepAfter, start, |chunk|, d);
      cur := WriteAt(cur, chunk, start + d);
      start := start + |chunk|;
    }
    if |file| + d < 0 {
      return Failure(NegativeSize);
    }
    if keepAfter < |file| {
      ShrinkDone(file, cur, keepAfter, d);
    } else {
      assert forall i :: 0 <= i < |cur| ==> cur[i] == file[i];
    }
    r := Success(Truncate(cur, |file| + d));
  }

  /** `spareSpace` with the grow branch reading no further than it moves: it leaves
      exactly the intended contents, or fails where truncation would. */
  method SpareSpace(file: string, keepBefore: nat, keepAfter: nat, requiredSpace: nat, bufferSize: nat)
    returns (r: Result<string, SpareError>)
    requires bufferSize > 0
    ensures r == Spared(file, keepBefore, keepAfter, requiredSpace)
  {
    var d := requiredSpace - (keepAfter - keepBefore);
    if d == 0 || |file| == 0 {
      return Success(file);
    }
    if d > 0 {
      var moved := Grow(file, keepAfter, d, bufferSize);
      r := Success(moved);
    } else {
      r := Shrink(file, keepAfter, d, bufferSize);
    }
  }

  // ---------------------------------------------------------------------------
  // What the spared room is for.

  /** Writing `line` at `keepBefore` over a moved tail leaves the bytes before
      `keepBefore`, then `line`, then the old tail. */
  lemma WriteOverMoved(file: string, keepBefore: nat, keepAfter: nat, line: string)
    requires keepBefore <= keepAfter < |file|
    ensures WriteAt(Moved(file, keepAfter, LengthDiff(keepBefore, keepAfter, |line|)), line, keepBefore)
         == file[..keepBefore] + line + file[keepAfter..]
  {
    var d := LengthDiff(keepBefore, keepAfter, |line|);
    var m := Moved(file, keepAfter, d);
    var w := WriteAt(m, line, keepBefore);
    var want := file[..keepBefore] + line + file[keepAfter..];
    forall i | 0 <= i < |w|
      ensures w[i] == want[i]
    {
      if i >= keepAfter + d {
        assert m[i] == file[keepAfter..][i - keepAfter - d];
      }
    }
  }

  /** Writing `line` at `keepBefore` over a file that ends before `keepBefore + |line|`
      leaves the bytes before `keepBefore`, then `line`. */
  lemma WriteOverEnd(file: string, keepBefore: nat, line: string)
    requires keepBefore <= |file| <= keepBefore + |line|
    ensures WriteAt(file, line, keepBefore) == file[..keepBefore] + line
  {
    var w := WriteAt(file, line, keepBefore);
    assert forall i :: 0 <= i < |w| ==> w[i] == (file[..keepBefore] + line)[i];
  }

  /** `spareSpace` followed by the write at `keepBefore` (hostkey.go:199-204) replaces
      the span `[keepBefore, keepAfter)` by `line`; a span running past the end of the
      file, as for a last line without its newline, replaces the rest of the file. */
  lemma SpareThenWrite(file: string, keepBefore: nat, keepAfter: nat, line: string)
    requires keepBefore <= keepAfter && keepBefore <= |file| && keepAfter <= |file| + |line|
    ensures Spared(file, keepBefore, keepAfter, |line|).Success?
    ensures WriteAt(Spared(file, keepBefore, keepAfter, |line|).value, line, keepBefore)
         == file[..keepBefore] + line + (if keepAfter < |file| then file[keepAfter..] else "")
  {
    var d := LengthDiff(keepBefore, keepAfter, |line|);
    if keepAfter < |file| {
      if d == 0 {
        var w := WriteAt(file, line, keepBefore);
        assert forall i :: 0 <= i < |w| ==> w[i] == (file[..keepBefore] + line + file[keepAfter..])[i];
      } else {
        WriteOverMoved(file, keepBefore, keepAfter, line);
      }
    } else if d < 0 && |file| > 0 {
      WriteOverEnd(file[..|file| + d], keepBefore, line);
      assert file[..|file| + d][..keepBefore] == file[..keepBefore];
    } else {
      WriteOverEnd(file, keepBefore, line);
    }
  }

  // ---------------------------------------------------------------------------
  // The grow branch as written.

  /** Where a round of the back-to-front copy starts reading: a buffer below `end`,
      clamped to `keepAfter`. */
  function ReadStart(keepAfter: nat, end: int, bufferSize: nat): nat
  {
    if end - bufferSize < keepAfter then keepAfter else end - bufferSize
  }

  /** The chunk a round of the written loop reads: a whole buffer from the round's start. */
  function RoundChunk(cur: string, keepAfter: nat, end: int, bufferSize: nat): string
  {
    ReadAt(cur, ReadStart(keepAfter, end, bufferSize), bufferSize)
  }

  /** Where the next round of the written loop ends: as many bytes lower as were read. */
  function RoundEnd(cur: string, keepAfter: nat, end: int, bufferSize: nat): int
  {
    end - |RoundChunk(cur, keepAfter, end, bufferSize)|
  }

  /** One round of the written loop: the chunk read at the round's start is written `d` higher. */
  lemma GrowAsWrittenRound(cur: string, keepAfter: nat, end: nat, d: nat, bufferSize: nat)
    requires keepAfter < end <= |cur| && bufferSize > 0
    ensures GrowAsWritten(cur, keepAfter, end, d, bufferSize)
         == GrowAsWritten(WriteAt(cur, RoundChunk(cur, keepAfter, end, bufferSize), ReadStart(keepAfter, end, bufferSize) + d),
                          keepAfter, RoundEnd(cur, keepAfter, end, bufferSize), d, bufferSize)
  {
  }

  /** The back-to-front copy exactly as hostkey.go:236-259 does it: every read asks
      for a whole buffer, also the last, clamped one starting at `keepAfter`, which
      then reads past `end` into bytes that were already moved. */
  function GrowAsWritten(cur: string, keepAfter: nat, end: int, d: nat, bufferSize: nat): string
    requires end <= |cur| && bufferSize > 0
    decreases end - keepAfter
  {
    if end <= keepAfter then cur
    else
      GrowAsWritten(WriteAt(cur, RoundChunk(cur, keepAfter, end, bufferSize), ReadStart(keepAfter, end, bufferSize) + d),
                    keepAfter, RoundEnd(cur, keepAfter, end, bufferSize), d, bufferSize)
  }

  /** The tails the written loop moves correctly: one buffer or less, or a whole
      number of buffers, so that no read is clamped after the first. */
  predicate TailFits(file: string, keepAfter: nat, bufferSize: nat)
    requires keepAfter <= |file| && bufferSize > 0
  {
    |file| - keepAfter <= bufferSize || (|file| - keepAfter) % bufferSize == 0
  }

  /** A round whose whole-buffer read stops exactly at `end`: either it starts a full
      buffer below `end`, or `end` is the end of the file. */
  lemma ExactRead(cur: string, keepAfter: nat, start: nat, end: nat, bufferSize: nat)
    requires keepAfter < end <= |cur| && bufferSize > 0
    requires start == ReadStart(keepAfter, end, bufferSize)
    requires start + bufferSize == end || end == |cur|
    ensures RoundChunk(cur, keepAfter, end, bufferSize) == cur[start..end]
    ensures RoundEnd(cur, keepAfter, end, bufferSize) == start
  {
  }

  /** After an exact round, what is left is again a whole number of buffers,
      and the round's whole-buffer read stops at `end`. */
  lemma RoundsLeft(keepAfter: nat, end: nat, size: nat, bufferSize: nat, rounds: nat) returns (left: nat)
    requires keepAfter < end && bufferSize > 0
    requires (end == size && end - keepAfter <= bufferSize) || end - keepAfter == rounds * bufferSize
    ensures ReadStart(keepAfter, end, bufferSize) - keepAfter == left * bufferSize
    ensures end == size || ReadStart(keepAfter, end, bufferSize) + bufferSize == end
  {
    var start := ReadStart(keepAfter, end, bufferSize);
    if start == keepAfter {
      left := 0;
    } else {
      left := rounds - 1;
      assert left * bufferSize == rounds * bufferSize - bufferSize;
    }
  }

  lemma {:induction false} GrowAsWrittenFrom(file: string, cur: string, keepAfter: nat, end: nat, d: nat, bufferSize: nat, rounds: nat)
    requires keepAfter <= end <= |file| && keepAfter < |file| && d > 0 && bufferSize > 0
    requires GrowAgrees(cur, file, end, d)
    requires (end == |file| && end - keepAfter <= bufferSize) || end - keepAfter == rounds * bufferSize
    ensures GrowAsWritten(cur, keepAfter, end, d, bufferSize) == Moved(file, keepAfter, d)
    decreases end
  {
    if end == keepAfter {
      GrowDone(file, cur, keepAfter, d);
    } else {
      var next, start, left := NextRound(file, cur, keepAfter, end, d, bufferSize, rounds);
      GrowAsWrittenFrom(file, next, keepAfter, start, d, bufferSize, left);
    }
  }

  /** The state after one exact round of the written loop, still a whole number of buffers from `keepAfter`. */
  lemma NextRound(file: string, cur: string, keepAfter: nat, end: nat, d: nat, bufferSize: nat, rounds: nat)
    returns (next: string, start: nat, left: nat)
    requires keepAfter < end <= |file| && d > 0 && bufferSize > 0
    requires GrowAgrees(cur, file, end, d)
    requires (end == |file| && end - keepAfter <= bufferSize) || end - keepAfter == rounds * bufferSize
    ensures keepAfter <= start < end
    ensures GrowAgrees(next, file, start, d)
    ensures GrowAsWritten(cur, keepAfter, end, d, bufferSize) == GrowAsWritten(next, keepAfter, start, d, bufferSize)
    ensures start - keepAfter == left * bufferSize
  {
    start := ReadStart(keepAfter, end, bufferSize);
    left := RoundsLeft(keepAfter, end, |file|, bufferSize, rounds);
    next := GrowAsWrittenExactRound(file, cur, keepAfter, start, end, d, bufferSize);
  }

  /** A round of the written loop whose read stops at `end` moves `[start, end)` as intended. */
  lemma GrowAsWrittenExactRound(file: string, cur: string, keepAfter: nat, start: nat, end: nat, d: nat, bufferSize: nat)
    returns (next: string)
    requires keepAfter < end <= |file| && d > 0 && bufferSize > 0
    requires start == ReadStart(keepAfter, end, bufferSize)
    requires GrowAgrees(cur, file, end, d)
    requires end == |file| || start + bufferSize == end
    ensures GrowAgrees(next, file, start, d)
    ensures GrowAsWritten(cur, keepAfter, end, d, bufferSize) == GrowAsWritten(next, keepAfter, start, d, bufferSize)
  {
    ExactRound(cur, keepAfter, start, end, d, bufferSize);
    GrowStep(file, cur, start, end, d);
    next := WriteAt(cur, cur[start..end], start + d);
  }

  /** A round whose read stops at `end` writes exactly `[start, end)` `d` higher. */
  lemma ExactRound(cur: string, keepAfter: nat, start: nat, end: nat, d: nat, bufferSize: nat)
    requires keepAfter < end <= |cur| && bufferSize > 0
    requires start == ReadStart(keepAfter, end, bufferSize)
    requires start + bufferSize == end || end == |cur|
    ensures GrowAsWritten(cur, keepAfter, end, d, bufferSize)
         == GrowAsWritten(WriteAt(cur, cur[start..end], start + d), keepAfter, start, d, bufferSize)
  {
    ExactRead(cur, keepAfter, start, end, bufferSize);
    GrowAsWrittenRound(cur, keepAfter, end, d, bufferSize);
  }

  /** When the tail fits, the loop as written moves it correctly. */
  lemma GrowAsWrittenFits(file: string, keepAfter: nat, d: nat, bufferSize: nat)
    requires keepAfter < |file| && d > 0 && bufferSize > 0
    requires TailFits(file, keepAfter, bufferSize)
    ensures GrowAsWritten(file, keepAfter, |file|, d, bufferSize) == Moved(file, keepAfter, d)
  {
    GrowAgreesStart(file, d);
    var rounds := (|file| - keepAfter) / bufferSize;
    assert |file| - keepAfter <= bufferSize || |file| - keepAfter == rounds * bufferSize;
    GrowAsWrittenFrom(file, file, keepAfter, |file|, d, bufferSize, rounds);
  }

  /** One round of the written loop on concrete contents: a whole-buffer read at
      `start` written `d` higher. */
  predicate RoundGives(before: string, start: nat, d: nat, bufferSize: nat, after: string)
  {
    WriteAt(before, ReadAt(before, start, bufferSize), start + d) == after
  }

  lemma OverReadRound1()
    ensures ReadAt("ab\n0123456789", 9, 4) == "6789"
    ensures RoundGives("ab\n0123456789", 9, 1, 4, "ab\n01234566789")
  {
    var f := "ab\n0123456789";
    assert ReadAt(f, 9, 4) == f[9..13];
    assert WriteAt(f, "6789", 10) == f[..10] + "6789";
  }

  lemma OverReadRound2()
    ensures ReadAt("ab\n01234566789", 5, 4) == "2345"
    ensures RoundGives("ab\n01234566789", 5, 1, 4, "ab\n01223456789")
  {
    var f := "ab\n01234566789";
    assert ReadAt(f, 5, 4) == f[5..9];
    assert WriteAt(f, "2345", 6) == f[..6] + "2345" + f[10..];
  }

  /** The clamped read: four bytes from `keepAfter`, two more than are left to move. */
  lemma OverReadRound3()
    ensures ReadAt("ab\n01223456789", 3, 4) == "0122"
    ensures RoundGives("ab\n01223456789", 3, 1, 4, "ab\n00122456789")
  {
    var f := "ab\n01223456789";
    assert ReadAt(f, 3, 4) == f[3..7];
    assert WriteAt(f, "0122", 4) == f[..4] + "0122" + f[8..];
  }

  /** The three rounds of the written loop on that input. */
  lemma OverReadTrace()
    ensures GrowAsWritten("ab\n0123456789", 3, 13, 1, 4) == "ab\n00122456789"
  {
    OverReadRound1();
    OverReadRound2();
    OverReadRound3();
  }

  /** What `spareSpace` is meant to leave for that input. */
  lemma OverReadIntended()
    ensures Spared("ab\n0123456789", 0, 3, 4) == Success("ab\n00123456789")
  {
    var f := "ab\n0123456789";
    assert PadTo(f, 4) == f;
    assert f[..4] == "ab\n0";
    assert f[3..] == "0123456789";
    assert Moved(f, 3, 1) == "ab\n0" + "0123456789" == "ab\n00123456789";
  }

  /** Otherwise it can lose bytes: making room for a four-byte line in place of
      "ab\n" over a ten-byte tail with a four-byte buffer duplicates `2` and drops `3`. */
  lemma GrowOverReadCorrupts()
    ensures GrowAsWritten("ab\n0123456789", 3, 13, 1, 4) == "ab\n00122456789"
    ensures Spared("ab\n0123456789", 0, 3, 4) == Success("ab\n00123456789")
  {
    OverReadTrace();
    OverReadIntended();
  }
}
