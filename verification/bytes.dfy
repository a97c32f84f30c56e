/**
 * Byte strings as Python's `bytes`: little-endian field access as done by
 * `struct.unpack` with a `<` layout, reads from a seekable file, and
 * `bytes.split` / `bytes.join` on a one-byte separator.
 */
module Bytes {

  newtype byte = b: int | 0 <= b < 256

  type Bytes = seq<byte>

  const NUL: byte := 0

  function Min(a: nat, b: nat): nat { if a <= b then a else b }

  /** The bytes of an ASCII literal such as `b'NXPK'`. */
  function Ascii(s: string): (r: Bytes)
    requires forall k :: 0 <= k < |s| ==> s[k] < 128 as char
    ensures |r| == |s|
  {
    seq(|s|, k requires 0 <= k < |s| => s[k] as int as byte)
  }

  // ---------------------------------------------------------------------
  // Little-endian unsigned fields (struct codes B, H and I after '<')
  // ---------------------------------------------------------------------

  /** The unsigned byte at `at` (struct code `B`). */
  function U8(s: Bytes, at: nat): (v: nat)
    requires at + 1 <= |s|
    ensures v < 0x100
  {
    s[at] as nat
  }

  /** The unsigned 16-bit little-endian value at `at` (struct code `<H`). */
  function U16(s: Bytes, at: nat): (v: nat)
    requires at + 2 <= |s|
    ensures v < 0x1_0000
  {
    s[at] as nat + 0x100 * s[at + 1] as nat
  }

  /** The unsigned 32-bit little-endian value at `at` (struct code `<I`). */
  function U32(s: Bytes, at: nat): (v: nat)
    requires at + 4 <= |s|
    ensures v < 0x1_0000_0000
  {
    U16(s, at) + 0x1_0000 * U16(s, at + 2)
  }

  /** The two bytes `struct.pack('<H', v)` produces. */
  function LE16(v: nat): (r: Bytes)
    requires v < 0x1_0000
    ensures |r| == 2 && U16(r, 0) == v
  {
    [(v % 0x100) as byte, (v / 0x100) as byte]
  }

  /** The four bytes `struct.pack('<I', v)` produces. */
  function LE32(v: nat): (r: Bytes)
    requires v < 0x1_0000_0000
    ensures |r| == 4 && U32(r, 0) == v
  {
    LE16(v % 0x1_0000) + LE16(v / 0x1_0000)
  }

  /** Re-encoding a decoded 16-bit field gives back the bytes it came from. */
  lemma LE16OfU16(s: Bytes, at: nat)
    requires at + 2 <= |s|
    ensures LE16(U16(s, at)) == s[at..at + 2]
  {
    var v := U16(s, at);
    assert v % 0x100 == s[at] as nat;
    assert v / 0x100 == s[at + 1] as nat;
  }

  /** Re-encoding a decoded 32-bit field gives back the bytes it came from. */
  lemma LE32OfU32(s: Bytes, at: nat)
    requires at + 4 <= |s|
    ensures LE32(U32(s, at)) == s[at..at + 4]
  {
    var lo, hi := U16(s, at), U16(s, at + 2);
    assert U32(s, at) % 0x1_0000 == lo;
    assert U32(s, at) / 0x1_0000 == hi;
    LE16OfU16(s, at);
    LE16OfU16(s, at + 2);
  }

  /** A 16-bit field reads the two bytes at its offset, wherever they came from. */
  lemma U16Window(buf: Bytes, at: nat, w: Bytes)
    requires at + 2 <= |buf| && |w| == 2
    requires forall j :: 0 <= j < 2 ==> buf[at + j] == w[j]
    ensures U16(buf, at) == U16(w, 0)
  {
    assert buf[at] == w[0] && buf[at + 1] == w[1];
  }

  /** A 32-bit field reads the four bytes at its offset, wherever they came from. */
  lemma U32Window(buf: Bytes, at: nat, w: Bytes)
    requires at + 4 <= |buf| && |w| == 4
    requires forall j :: 0 <= j < 4 ==> buf[at + j] == w[j]
    ensures U32(buf, at) == U32(w, 0)
  {
    assert buf[at] == w[0] && buf[at + 1] == w[1] && buf[at + 2] == w[2] && buf[at + 3] == w[3];
  }

  /** Two adjacent slices make up the slice that spans them. */
  lemma SlicesJoin(buf: Bytes, i: nat, j: nat, k: nat)
    requires i <= j <= k <= |buf|
    ensures buf[i..j] + buf[j..k] == buf[i..k]
  {
  }

  // ---------------------------------------------------------------------
  // Reading a file
  // ---------------------------------------------------------------------

  /**
   * What `read(n)` returns after `seek(pos)` on a file holding `content`:
   * the next `n` bytes, fewer near the end of the file, none past it.
   */
  function ReadAt(content: Bytes, pos: nat, n: nat): (r: Bytes)
    ensures |r| == if pos < |content| then Min(n, |content| - pos) else 0
    ensures forall k :: 0 <= k < |r| ==> r[k] == content[pos + k]
  {
    if |content| <= pos then []
    else if pos + n <= |content| then content[pos..pos + n]
    else content[pos..]
  }

  /** `buf.startswith(prefix)`. */
  predicate StartsWith(buf: Bytes, prefix: Bytes)
  {
    |prefix| <= |buf| && buf[..|prefix|] == prefix
  }

  // ---------------------------------------------------------------------
  // Splitting on a separator byte
  // ---------------------------------------------------------------------

  /** How many times `b` occurs in `s`. */
  function Count(s: Bytes, b: byte): nat
  {
    if s == [] then 0 else (if s[0] == b then 1 else 0) + Count(s[1..], b)
  }

  /**
   * `s.split(bytes([sep]))`: the maximal runs between separators, empty
   * runs included, so there is always at least one segment.
   */
  function Split(s: Bytes, sep: byte): (parts: seq<Bytes>)
    ensures |parts| >= 1
  {
    if s == [] then [[]]
    else
      var rest := Split(s[1..], sep);
      if s[0] == sep then [[]] + rest
      else [[s[0]] + rest[0]] + rest[1..]
  }

  /** `bytes([sep]).join(parts)`. */
  function Join(parts: seq<Bytes>, sep: byte): Bytes
    requires |parts| >= 1
  {
    if |parts| == 1 then parts[0] else parts[0] + [sep] + Join(parts[1..], sep)
  }

  /** Joining the segments with the separator rebuilds the input exactly. */
  lemma {:induction false} JoinSplit(s: Bytes, sep: byte)
    ensures Join(Split(s, sep), sep) == s
  {
    if s != [] {
      var rest := Split(s[1..], sep);
      JoinSplit(s[1..], sep);
      if s[0] == sep {
        assert Split(s, sep)[1..] == rest;
      } else if |rest| > 1 {
        assert Split(s, sep)[1..] == rest[1..];
        assert Join(rest, sep) == rest[0] + [sep] + Join(rest[1..], sep);
      }
    }
  }

  /** No segment contains the separator. */
  lemma {:induction false} SplitSegmentsFree(s: Bytes, sep: byte)
    ensures forall k :: 0 <= k < |Split(s, sep)| ==> sep !in Split(s, sep)[k]
  {
    if s != [] {
      SplitSegmentsFree(s[1..], sep);
    }
  }

  /** There is one more segment than there are separators. */
  lemma {:induction false} SplitSegmentCount(s: Bytes, sep: byte)
    ensures |Split(s, sep)| == Count(s, sep) + 1
  {
    if s != [] {
      SplitSegmentCount(s[1..], sep);
    }
  }

  /** Splitting around one separator splits each side independently. */
  lemma {:induction false} SplitAround(a: Bytes, sep: byte, b: Bytes)
    ensures Split(a + [sep] + b, sep) == Split(a, sep) + Split(b, sep)
  {
    if a == [] {
      assert a + [sep] + b == [sep] + b;
      assert ([sep] + b)[1..] == b;
    } else {
      assert (a + [sep] + b)[1..] == a[1..] + [sep] + b;
      SplitAround(a[1..], sep, b);
    }
  }

  /** A run without the separator is one segment. */
  lemma {:induction false} SplitFree(a: Bytes, sep: byte)
    requires sep !in a
    ensures Split(a, sep) == [a]
  {
    if a != [] {
      SplitFree(a[1..], sep);
      assert [a[0]] + a[1..] == a;
    }
  }

  /** Splitting a join of separator-free segments gives the segments back. */
  lemma {:induction false} SplitJoin(parts: seq<Bytes>, sep: byte)
    requires |parts| >= 1
    requires forall k :: 0 <= k < |parts| ==> sep !in parts[k]
    ensures Split(Join(parts, sep), sep) == parts
  {
    SplitFree(parts[0], sep);
    if |parts| > 1 {
      SplitJoin(parts[1..], sep);
      SplitAround(parts[0], sep, Join(parts[1..], sep));
      assert [parts[0]] + parts[1..] == parts;
    }
  }

  /** `s.replace(bytes([from]), bytes([to]))`. */
  function Replace(s: Bytes, from: byte, to: byte): (r: Bytes)
    requires from != to
    ensures |r| == |s| && from !in r
    ensures forall k :: 0 <= k < |s| ==> r[k] == if s[k] == from then to else s[k]
  {
    seq(|s|, k requires 0 <= k < |s| => if s[k] == from then to else s[k])
  }
}
