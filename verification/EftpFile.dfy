/** Files as byte sequences, cut into blocks. */
module EftpFile {
  import opened Basics
  import opened EftpSession

  /** `fseek` to `off` followed by `fread` of at most `len` bytes. */
  function ReadAt(file: seq<Byte>, off: nat, len: nat): seq<Byte> {
    file[Min(off, |file|)..Min(off + len, |file|)]
  }

  /** `fseek` to `off` followed by `fwrite`; a gap reads back as zeros. */
  function WriteAt(file: seq<Byte>, off: nat, data: seq<Byte>): seq<Byte> {
    if data == [] then file
    else
      var base := if off <= |file| then file[..off] else file + seq(off - |file|, _ => 0);
      base + data + if off + |data| < |file| then file[off + |data|..] else []
  }

  /** The n-th block, counting from 1. */
  function Block(file: seq<Byte>, size: nat, n: nat): seq<Byte>
    requires n >= 1
  {
    ReadAt(file, size * (n - 1), size)
  }

  /** The first n blocks. */
  function Blocks(file: seq<Byte>, size: nat, n: nat): seq<Byte> {
    file[..Min(size * n, |file|)]
  }

  /** What was written is read back, what was there stays as it was, and a gap is zero. */
  lemma WriteThenRead(file: seq<Byte>, off: nat, data: seq<Byte>)
    requires data != []
    ensures var t := WriteAt(file, off, data);
            && ReadAt(t, off, |data|) == data
            && |t| == (if off + |data| > |file| then off + |data| else |file|)
            && (forall i: nat :: i < |t| && !(off <= i < off + |data|) ==> t[i] == if i < |file| then file[i] else 0)
  {
  }

  /** Writing the front part of `data` at the end of the file. */
  lemma WriteAtEnd(file: seq<Byte>, data: seq<Byte>, len: nat)
    requires len <= |data|
    ensures file <= WriteAt(file, |file|, data[..len]) <= file + data
    ensures len == |data| ==> WriteAt(file, |file|, data[..len]) == file + data
  {
    assert file[..|file|] == file;
    assert file + data[..len] == (file + data)[..|file| + len];
  }

  lemma NextBlock(file: seq<Byte>, size: nat, n: nat)
    ensures Blocks(file, size, n + 1) == Blocks(file, size, n) + Block(file, size, n + 1)
    ensures size * (n + 1) == size * n + size
    ensures Block(file, size, n + 1) == ReadAt(file, size * n, size)
  {
    assert size * (n + 1) == size * n + size;
    assert n + 1 - 1 == n;
  }

  lemma BlocksGrow(file: seq<Byte>, size: nat, m: nat, n: nat)
    requires m <= n
    ensures Blocks(file, size, m) <= Blocks(file, size, n) <= file
  {
    assert size * m <= size * n;
  }

  lemma TimesIsMonotone(size: nat, a: nat, b: nat)
    ensures a <= b ==> size * a <= size * b
  {
  }

  /** The rounded-up quotient is the number of blocks. */
  lemma LastBlock(len: nat, size: nat)
    requires size > 0
    ensures var n := (len + size - 1) / size;
            && (n > 0 ==> size * (n - 1) < len) && len <= size * n
            && (len <= 0xFFFF * size ==> n <= 0xFFFF)
  {
    var n := (len + size - 1) / size;
    assert len + size - 1 == size * n + (len + size - 1) % size;
    assert n > 0 ==> size * n == size * (n - 1) + size;
    TimesIsMonotone(size, 0x1_0000, n);
  }
}
