/** The positioned file operations `spareSpace` and `updateKnownHosts` use
    (`os.File.ReadAt`, `WriteAt`, `Truncate`), on the file's contents. */
module Files {

  const Zero: char := 0 as char

  /** The byte at offset `i` of `file`, reading the hole past its end as zero. */
  function ByteAt(file: string, i: nat): char
  {
    if i < |file| then file[i] else Zero
  }

  function Zeros(n: nat): (z: string)
    ensures |z| == n
    ensures forall i :: 0 <= i < n ==> z[i] == Zero
  {
    if n == 0 then "" else Zeros(n - 1) + [Zero]
  }

  /** The file extended with zero bytes to at least `n` bytes, as a write past its end leaves it. */
  function PadTo(file: string, n: nat): (r: string)
    ensures |r| == if n > |file| then n else |file|
    ensures forall i {:trigger r[i]} :: 0 <= i < |r| ==> r[i] == ByteAt(file, i)
  {
    if n > |file| then file + Zeros(n - |file|) else file
  }

  /** `ReadAt(buf, off)` with `|buf| == n`: up to `n` bytes from `off`, fewer at the end of the file. */
  function ReadAt(file: string, off: nat, n: nat): (r: string)
    ensures |r| == if off >= |file| then 0 else if off + n <= |file| then n else |file| - off
    ensures forall i {:trigger r[i]} :: 0 <= i < |r| ==> r[i] == file[off + i]
  {
    if off >= |file| then "" else if off + n <= |file| then file[off..off + n] else file[off..]
  }

  /** `WriteAt(data, off)`: `data` overwrites the bytes from `off`, the file grows as needed
      and a gap between its old end and `off` reads as zeros. */
  function WriteAt(file: string, data: string, off: nat): (r: string)
    ensures |r| == if off + |data| > |file| then off + |data| else |file|
    ensures forall i {:trigger r[i]} :: 0 <= i < |r| ==>
      r[i] == if off <= i < off + |data| then data[i - off] else ByteAt(file, i)
  {
    var padded := PadTo(file, off);
    padded[..off] + data + (if off + |data| < |padded| then padded[off + |data|..] else "")
  }

  /** `Truncate(n)`: the file cut, or zero-extended, to exactly `n` bytes. */
  function Truncate(file: string, n: nat): (r: string)
    ensures |r| == n
    ensures forall i {:trigger r[i]} :: 0 <= i < n ==> r[i] == ByteAt(file, i)
  {
    if n <= |file| then file[..n] else PadTo(file, n)
  }
}
