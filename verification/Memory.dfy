/**
 One flat byte memory. An address is an index into it and address 0 is NULL, so two
 regions handed to an operation may overlap in every way the C code allows.
 The functions here say what a finished copy or fill leaves behind; the methods of the
 other modules are proved against them.
 */
module Memory {

  newtype Byte = x: int | 0 <= x < 256

  type Mem = seq<Byte>

  const NULL: nat := 0

  // errno_t values
  const EOK := 0
  const ESNULLP := 400
  const ESZEROL := 401
  const ESLEMAX := 403
  const ESOVRLP := 404
  const ESNOSPC := 406
  const ESUNTERM := 407
  const ESBADFMT := 410
  const ESFMTTYP := 411

  const UINT32_LIMIT: nat := 0x1_0000_0000
  const RSIZE_MAX_MEM: nat := 0x1000_0000
  const RSIZE_MAX_STR: nat := 0xFFFF_FFFF_FFFF_FFFF

  function Repeat(v: Byte, n: nat): (r: seq<Byte>)
    ensures |r| == n && forall i | 0 <= i < n :: r[i] == v
  {
    seq(n, _ => v)
  }

  /** m with data laid over the bytes that start at p. */
  function Put(m: Mem, p: nat, data: seq<Byte>): (r: Mem)
    requires p + |data| <= |m|
    ensures |r| == |m|
  {
    seq(|m|, i requires 0 <= i < |m| => if p <= i < p + |data| then data[i - p] else m[i])
  }

  /** What a copy must leave: the n bytes that were at s before anything was written, now at d. */
  function Moved(m: Mem, d: nat, s: nat, n: nat): (r: Mem)
    requires d + n <= |m| && s + n <= |m|
    ensures |r| == |m|
  {
    seq(|m|, i requires 0 <= i < |m| => if d <= i < d + n then m[s + (i - d)] else m[i])
  }

  function Filled(m: Mem, d: nat, n: nat, v: Byte): (r: Mem)
    requires d + n <= |m|
    ensures |r| == |m|
  {
    seq(|m|, i requires 0 <= i < |m| => if d <= i < d + n then v else m[i])
  }

  lemma MovedNothing(m: Mem, d: nat, s: nat)
    requires d <= |m| && s <= |m|
    ensures Moved(m, d, s, 0) == m
  {
  }

  /** Copying upward piece by piece is the snapshot copy when the destination is not above the source. */
  lemma MovedUpward(m: Mem, now: Mem, after: Mem, d: nat, s: nat, k: nat, j: nat)
    requires d <= s && s + k + j <= |m|
    requires now == Moved(m, d, s, k) && after == Moved(now, d + k, s + k, j)
    ensures after == Moved(m, d, s, k + j)
  {
    assert now[s + k..s + k + j] == m[s + k..s + k + j];
  }

  /** Copying downward piece by piece is the snapshot copy when the destination is not below the source. */
  lemma MovedDownward(m: Mem, now: Mem, after: Mem, d: nat, s: nat, j: nat, k: nat)
    requires s <= d && d + j + k <= |m|
    requires now == Moved(m, d + j, s + j, k) && after == Moved(now, d, s, j)
    ensures after == Moved(m, d, s, j + k)
  {
    assert now[s..s + j] == m[s..s + j];
  }

  /** Laying b after a is laying a + b. */
  lemma PutAppend(m: Mem, p: nat, a: seq<Byte>, b: seq<Byte>)
    requires p + |a| + |b| <= |m|
    ensures Put(Put(m, p, a), p + |a|, b) == Put(m, p, a + b)
  {
  }

  /** The source survives a copy between ranges that coincide or do not meet. */
  lemma SourceSurvives(m: Mem, d: nat, s: nat, n: nat)
    requires d + n <= |m| && s + n <= |m|
    requires d == s || d + n <= s || s + n <= d
    ensures Moved(m, d, s, n)[s..s + n] == m[s..s + n]
  {
  }
}
