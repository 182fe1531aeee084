/**
 The unguarded copy and fill routines. They work in place on one array that holds both
 operands. A unit is what one C assignment reads and then writes: 1, 2 or 4 bytes, and a
 unit is only ever touched at an address it is aligned to.
 */
module MemPrimitives {
  import opened Memory

  /** The size of a unit; the C routines use 1, 2 and 4, the proofs only need it positive. */
  type Width = w: nat | 0 < w witness 1

  function Bytes(count: nat, w: Width): nat {
    count * w
  }

  predicate Aligned(p: nat, w: Width) {
    p % w == 0
  }

  /** Stepping over whole units keeps a pointer's low bits. */
  lemma LowBitsKept(p: nat, count: nat, w: Width)
    ensures (p + Bytes(count, w)) % w == p % w
  {
    var q := p + count * w;
    var a, b := p / w, q / w;
    var k := b - a - count;
    assert k * w == b * w - a * w - count * w == p % w - q % w;
    NonzeroMultiple(k, w);
  }

  lemma NonzeroMultiple(k: int, w: Width)
    ensures k > 0 ==> k * w >= w
    ensures k < 0 ==> k * w <= -(w as int)
  {
  }

  /** `*dp = *sp` for one unit. */
  method CopyUnit(mem: array<Byte>, dp: nat, sp: nat, w: Width)
    requires Aligned(dp, w) && Aligned(sp, w)
    requires dp + w <= mem.Length && sp + w <= mem.Length
    modifies mem
    ensures mem[..] == Moved(old(mem[..]), dp, sp, w)
  {
    var unit := mem[sp..sp + w];
    forall k | 0 <= k < w {
      mem[dp + k] := unit[k];
    }
  }

  /**
   count consecutive statements `*dp++ = *sp++`. In the C text the call with 16 is the
   default label, and a call with fewer is the jump to that case label and the fall through
   the ones below it.
   */
  method UnrolledUp(mem: array<Byte>, dp: nat, sp: nat, count: nat, w: Width)
    requires dp <= sp && Aligned(dp, w) && Aligned(sp, w)
    requires sp + Bytes(count, w) <= mem.Length
    modifies mem
    ensures mem[..] == Moved(old(mem[..]), dp, sp, Bytes(count, w))
    decreases count
  {
    if count != 0 {
      Split(count, 1, w);
      CopyUnit(mem, dp, sp, w);
      LowBitsKept(dp, 1, w);
      LowBitsKept(sp, 1, w);
      ghost var now := mem[..];
      UnrolledUp(mem, dp + w, sp + w, count - 1, w);
      MovedUpward(old(mem[..]), now, mem[..], dp, sp, w, Bytes(count - 1, w));
    }
  }

  /** count consecutive statements `*--dp = *--sp`; dp and sp point at the lowest unit. */
  method UnrolledDown(mem: array<Byte>, dp: nat, sp: nat, count: nat, w: Width)
    requires sp <= dp && Aligned(dp, w) && Aligned(sp, w)
    requires dp + Bytes(count, w) <= mem.Length
    modifies mem
    ensures mem[..] == Moved(old(mem[..]), dp, sp, Bytes(count, w))
    decreases count
  {
    if count != 0 {
      Split(count, count - 1, w);
      var rest := Bytes(count - 1, w);
      LowBitsKept(dp, count - 1, w);
      LowBitsKept(sp, count - 1, w);
      CopyUnit(mem, dp + rest, sp + rest, w);
      ghost var now := mem[..];
      UnrolledDown(mem, dp, sp, count - 1, w);
      MovedDownward(old(mem[..]), now, mem[..], dp, sp, rest, w);
    }
  }

  /**
   mem_prim_move8, mem_prim_move16 and mem_prim_move32: the three C routines are this text
   at w = 1, 2 and 4.
   */
  method MemPrimMoveUnits(mem: array<Byte>, dest: nat, src: nat, length: nat, w: Width)
    requires length < UINT32_LIMIT
    requires Aligned(dest, w) && Aligned(src, w)
    requires dest + Bytes(length, w) <= mem.Length && src + Bytes(length, w) <= mem.Length
    modifies mem
    ensures mem[..] == Moved(old(mem[..]), dest, src, Bytes(length, w))
  {
    if dest < src {
      MoveUnitsUp(mem, dest, src, length, w);
    } else {
      MoveUnitsDown(mem, dest, src, length, w);
    }
  }

  /** One pass of the upward loop, behind done bytes already moved. */
  method PassUp(mem: array<Byte>, ghost m: Mem, dest: nat, src: nat, done: nat, pass: nat, w: Width)
    requires dest <= src && Aligned(dest + done, w) && Aligned(src + done, w)
    requires src + done + Bytes(pass, w) <= |m| && mem[..] == Moved(m, dest, src, done)
    modifies mem
    ensures mem[..] == Moved(m, dest, src, done + Bytes(pass, w))
    ensures Aligned(dest + done + Bytes(pass, w), w) && Aligned(src + done + Bytes(pass, w), w)
  {
    hide Moved, Bytes;
    LowBitsKept(dest + done, pass, w);
    LowBitsKept(src + done, pass, w);
    UnrolledUp(mem, dest + done, src + done, pass, w);
    MovedUpward(m, old(mem[..]), mem[..], dest, src, done, Bytes(pass, w));
  }

  /** One pass of the downward loop, in front of done bytes already moved. */
  method PassDown(mem: array<Byte>, ghost m: Mem, dest: nat, src: nat, rest: nat, pass: nat, ghost done: nat, w: Width)
    requires src <= dest && Aligned(dest, w) && Aligned(src, w)
    requires dest + Bytes(rest, w) + Bytes(pass, w) + done <= |m|
    requires mem[..] == Moved(m, dest + Bytes(rest, w) + Bytes(pass, w), src + Bytes(rest, w) + Bytes(pass, w), done)
    modifies mem
    ensures mem[..] == Moved(m, dest + Bytes(rest, w), src + Bytes(rest, w), Bytes(pass, w) + done)
  {
    hide Moved, Bytes;
    var dp, sp := dest + Bytes(rest, w), src + Bytes(rest, w);
    LowBitsKept(dest, rest, w);
    LowBitsKept(src, rest, w);
    UnrolledDown(mem, dp, sp, pass, w);
    MovedDownward(m, old(mem[..]), mem[..], dp, sp, Bytes(pass, w), done);
  }

  /** The upward half of mem_prim_move8/16/32; each pass drops len by 16 or to 0. */
  method MoveUnitsUp(mem: array<Byte>, dest: nat, src: nat, length: nat, w: Width)
    requires dest <= src && Aligned(dest, w) && Aligned(src, w)
    requires src + Bytes(length, w) <= mem.Length
    modifies mem
    ensures mem[..] == Moved(old(mem[..]), dest, src, Bytes(length, w))
  {
    hide Moved, Aligned, Bytes;
    ghost var m := mem[..];
    var done: nat, len: nat := 0, length;
    MovedNothing(m, dest, src);
    while len != 0
      invariant done + Bytes(len, w) == Bytes(length, w)
      invariant Aligned(dest + done, w) && Aligned(src + done, w)
      invariant mem[..] == Moved(m, dest, src, done)
      decreases len
    {
      var pass: nat := if len > 15 then 16 else len;
      Split(len, pass, w);
      PassUp(mem, m, dest, src, done, pass, w);
      done, len := done + Bytes(pass, w), len - pass;
    }
    NoBytes(w);
  }

  /** The downward half; the pointers start past the end. */
  method MoveUnitsDown(mem: array<Byte>, dest: nat, src: nat, length: nat, w: Width)
    requires src <= dest && Aligned(dest, w) && Aligned(src, w)
    requires dest + Bytes(length, w) <= mem.Length
    modifies mem
    ensures mem[..] == Moved(old(mem[..]), dest, src, Bytes(length, w))
  {
    hide Moved, Aligned, Bytes;
    ghost var m := mem[..];
    ghost var done: nat := 0;
    var len: nat := length;
    MovedNothing(m, dest + Bytes(length, w), src + Bytes(length, w));
    while len != 0
      invariant Bytes(len, w) + done == Bytes(length, w)
      invariant mem[..] == Moved(m, dest + Bytes(len, w), src + Bytes(len, w), done)
      decreases len
    {
      var pass: nat := if len > 15 then 16 else len;
      Split(len, pass, w);
      PassDown(mem, m, dest, src, len - pass, pass, done, w);
      done, len := Bytes(pass, w) + done, len - pass;
    }
    NoBytes(w);
  }

  lemma NoBytes(w: Width)
    ensures Bytes(0, w) == 0
  {
  }

  lemma Split(count: nat, pass: nat, w: Width)
    requires pass <= count
    ensures Bytes(count, w) == Bytes(pass, w) + Bytes(count - pass, w)
  {
  }

  /** One `*dp++ = *sp++` behind done bytes already moved. */
  method StepUp(mem: array<Byte>, ghost m: Mem, dest: nat, src: nat, done: nat, w: Width)
    requires dest <= src && Aligned(dest + done, w) && Aligned(src + done, w)
    requires src + done + w <= |m| && mem[..] == Moved(m, dest, src, done)
    modifies mem
    ensures mem[..] == Moved(m, dest, src, done + w)
    ensures Aligned(dest + done + w, w) && Aligned(src + done + w, w)
  {
    hide Moved;
    LowBitsKept(dest + done, 1, w);
    LowBitsKept(src + done, 1, w);
    CopyUnit(mem, dest + done, src + done, w);
    MovedUpward(m, old(mem[..]), mem[..], dest, src, done, w);
  }

  /** One `*--dp = *--sp` in front of done bytes already moved. */
  method StepDown(mem: array<Byte>, ghost m: Mem, dp: nat, sp: nat, ghost done: nat, w: Width)
    requires sp <= dp && Aligned(dp, w) && Aligned(sp, w)
    requires dp + w + done <= |m| && mem[..] == Moved(m, dp + w, sp + w, done)
    modifies mem
    ensures mem[..] == Moved(m, dp, sp, w + done)
  {
    hide Moved;
    CopyUnit(mem, dp, sp, w);
    MovedDownward(m, old(mem[..]), mem[..], dp, sp, w, done);
  }

  /**
   `do { copy one unit upward } while (--count);`. The counter is a uint32_t, so entering
   with 0 would wrap it; that it is never 0 is an obligation of every caller.
   */
  method DoWhileUp(mem: array<Byte>, dest: nat, src: nat, count: nat, w: Width)
    requires 0 < count
    requires dest <= src && Aligned(dest, w) && Aligned(src, w)
    requires src + Bytes(count, w) <= mem.Length
    modifies mem
    ensures mem[..] == Moved(old(mem[..]), dest, src, Bytes(count, w))
  {
    hide Moved;
    ghost var m := mem[..];
    var done: nat, tsp: nat, more := 0, count, true;
    MovedNothing(m, dest, src);
    while more
      invariant more == (tsp != 0) && Bytes(tsp, w) + done == Bytes(count, w)
      invariant Aligned(dest + done, w) && Aligned(src + done, w)
      invariant mem[..] == Moved(m, dest, src, done)
      decreases tsp
    {
      Split(tsp, 1, w);
      StepUp(mem, m, dest, src, done, w);
      done, tsp := done + w, tsp - 1;
      more := tsp != 0;
    }
  }

  /** The downward twin: the pointers start past the last of the count units. */
  method DoWhileDown(mem: array<Byte>, dest: nat, src: nat, count: nat, w: Width)
    requires 0 < count
    requires src <= dest && Aligned(dest, w) && Aligned(src, w)
    requires dest + Bytes(count, w) <= mem.Length
    modifies mem
    ensures mem[..] == Moved(old(mem[..]), dest, src, Bytes(count, w))
  {
    hide Moved;
    ghost var m := mem[..];
    var left: nat, tsp: nat, more := Bytes(count, w), count, true;
    ghost var end := left;
    MovedNothing(m, dest + end, src + end);
    while more
      invariant more == (tsp != 0) && left == Bytes(tsp, w) <= end
      invariant mem[..] == Moved(m, dest + left, src + left, end - left)
      decreases tsp
    {
      Split(tsp, tsp - 1, w);
      LowBitsKept(dest, tsp - 1, w);
      LowBitsKept(src, tsp - 1, w);
      StepDown(mem, m, dest + left - w, src + left - w, end - left, w);
      left, tsp := left - w, tsp - 1;
      more := tsp != 0;
    }
  }

  /** The low bits of a pointer survive the cast to uint32_t. */
  lemma LowBits(p: nat)
    ensures p % UINT32_LIMIT % 4 == p % 4
  {
    FoursDropOut(p / UINT32_LIMIT * 0x4000_0000, p % UINT32_LIMIT);
  }

  lemma FoursDropOut(a: nat, t: nat)
    ensures (4 * a + t) % 4 == t % 4
  {
  }

  /** `(tsp | dp) & wmask`, with tsp the low 32 bits of sp. */
  predicate Misaligned(dp: nat, sp: nat) {
    sp % UINT32_LIMIT % 4 != 0 || dp % 4 != 0
  }

  /** The nearest word boundaries on both sides of p. */
  lemma WordBoundaries(p: nat)
    ensures Aligned(p - p % 4, 4) && (p % 4 != 0 ==> Aligned(p + (4 - p % 4), 4))
  {
  }

  /** The bytes mem_prim_move copies singly before its words, going up. */
  function LeadUp(dp: nat, sp: nat, len: nat): (t: nat)
    requires 0 < len || !Misaligned(dp, sp)
    ensures t <= len && (t == 0 <==> !Misaligned(dp, sp)) && (t == len || t < 4)
    ensures t == len || (Aligned(dp + t, 4) && Aligned(sp + t, 4))
  {
    LowBits(sp);
    WordBoundaries(dp);
    WordBoundaries(sp);
    var tsp := sp % UINT32_LIMIT;
    if !Misaligned(dp, sp) then 0
    else if tsp % 4 != dp % 4 || len < 4 then len
    else 4 - tsp % 4
  }

  /** The same going down, from the end pointers. */
  function LeadDown(dp: nat, sp: nat, len: nat): (t: nat)
    requires len <= dp && len <= sp
    requires 0 < len || !Misaligned(dp, sp)
    ensures t <= len && (t == 0 <==> !Misaligned(dp, sp)) && (t == len || t < 4)
    ensures t == len || (Aligned(dp - t, 4) && Aligned(sp - t, 4))
  {
    LowBits(sp);
    WordBoundaries(dp);
    WordBoundaries(sp);
    var tsp := sp % UINT32_LIMIT;
    if !Misaligned(dp, sp) then 0
    else if tsp % 4 != dp % 4 || len <= 4 then len
    else tsp % 4
  }

  /** A byte loop behind its test for zero. */
  method BytesUp(mem: array<Byte>, dest: nat, src: nat, count: nat)
    requires dest <= src && src + count <= mem.Length
    modifies mem
    ensures mem[..] == Moved(old(mem[..]), dest, src, count)
  {
    hide Moved;
    MovedNothing(mem[..], dest, src);
    if count > 0 {
      DoWhileUp(mem, dest, src, count, 1);
    }
  }

  method BytesDown(mem: array<Byte>, dest: nat, src: nat, count: nat)
    requires src <= dest && dest + count <= mem.Length
    modifies mem
    ensures mem[..] == Moved(old(mem[..]), dest, src, count)
  {
    hide Moved;
    MovedNothing(mem[..], dest, src);
    if count > 0 {
      DoWhileDown(mem, dest, src, count, 1);
    }
  }

  /** A word loop behind its test for zero. */
  method WordLoopUp(mem: array<Byte>, dest: nat, src: nat, words: nat)
    requires dest <= src && src + 4 * words <= mem.Length
    requires words == 0 || (Aligned(dest, 4) && Aligned(src, 4))
    modifies mem
    ensures mem[..] == Moved(old(mem[..]), dest, src, 4 * words)
  {
    MovedNothing(mem[..], dest, src);
    if words > 0 {
      DoWhileUp(mem, dest, src, words, 4);
    }
  }

  method WordLoopDown(mem: array<Byte>, dest: nat, src: nat, words: nat)
    requires src <= dest && dest + 4 * words <= mem.Length
    requires words == 0 || (Aligned(dest, 4) && Aligned(src, 4))
    modifies mem
    ensures mem[..] == Moved(old(mem[..]), dest, src, 4 * words)
  {
    MovedNothing(mem[..], dest, src);
    if words > 0 {
      DoWhileDown(mem, dest, src, words, 4);
    }
  }

  /** The words and the byte mop-up of mem_prim_move, going up. */
  method WordsUp(mem: array<Byte>, dest: nat, src: nat, len: nat)
    requires dest <= src && src + len <= mem.Length
    requires len == 0 || (Aligned(dest, 4) && Aligned(src, 4))
    modifies mem
    ensures mem[..] == Moved(old(mem[..]), dest, src, len)
  {
    hide Moved;
    var words, bytes := len / 4, len % 4;
    WordLoopUp(mem, dest, src, words);
    ghost var now := mem[..];
    BytesUp(mem, dest + 4 * words, src + 4 * words, bytes);
    MovedUpward(old(mem[..]), now, mem[..], dest, src, 4 * words, bytes);
  }

  /** The words and the byte mop-up going down: words fill the top of the range, bytes the bottom. */
  method WordsDown(mem: array<Byte>, dest: nat, src: nat, len: nat)
    requires src <= dest && dest + len <= mem.Length
    requires len == 0 || (Aligned(dest + len, 4) && Aligned(src + len, 4))
    modifies mem
    ensures mem[..] == Moved(old(mem[..]), dest, src, len)
  {
    hide Moved;
    var words, bytes := len / 4, len % 4;
    WordLoopDown(mem, dest + bytes, src + bytes, words);
    ghost var now := mem[..];
    BytesDown(mem, dest, src, bytes);
    MovedDownward(old(mem[..]), now, mem[..], dest, src, bytes, 4 * words);
  }

  /** The section of mem_prim_move for a destination below the source. */
  method MoveUpward(mem: array<Byte>, dest: nat, src: nat, length: nat)
    requires dest <= src && src + length <= mem.Length
    requires 0 < length || !Misaligned(dest, src)
    modifies mem
    ensures mem[..] == Moved(old(mem[..]), dest, src, length)
  {
    var lead := LeadUp(dest, src, length);
    MoveUpFrom(mem, dest, src, length, lead);
  }

  /** Once the lead is known: the lead bytes singly, then the rest by words. */
  method MoveUpFrom(mem: array<Byte>, dest: nat, src: nat, length: nat, lead: nat)
    requires dest <= src && src + length <= mem.Length
    requires lead == length || (lead < length && Aligned(dest + lead, 4) && Aligned(src + lead, 4))
    modifies mem
    ensures mem[..] == Moved(old(mem[..]), dest, src, length)
  {
    hide Moved;
    BytesUp(mem, dest, src, lead);
    ghost var now := mem[..];
    WordsUp(mem, dest + lead, src + lead, length - lead);
    MovedUpward(old(mem[..]), now, mem[..], dest, src, lead, length - lead);
  }

  /** The section of mem_prim_move for every other destination; it starts from the end pointers. */
  method MoveDownward(mem: array<Byte>, dest: nat, src: nat, length: nat)
    requires src <= dest && dest + length <= mem.Length
    requires 0 < length || !Misaligned(dest, src)
    modifies mem
    ensures mem[..] == Moved(old(mem[..]), dest, src, length)
  {
    var lead := LeadDown(dest + length, src + length, length);
    MoveDownFrom(mem, dest, src, length - lead, lead);
  }

  /** Once the lead is known: the lead bytes at the top singly, then the rest by words. */
  method MoveDownFrom(mem: array<Byte>, dest: nat, src: nat, rest: nat, lead: nat)
    requires src <= dest && dest + rest + lead <= mem.Length
    requires rest == 0 || (Aligned(dest + rest, 4) && Aligned(src + rest, 4))
    modifies mem
    ensures mem[..] == Moved(old(mem[..]), dest, src, rest + lead)
  {
    hide Moved;
    BytesDown(mem, dest + rest, src + rest, lead);
    ghost var now := mem[..];
    WordsDown(mem, dest, src, rest);
    MovedDownward(old(mem[..]), now, mem[..], dest, src, rest, lead);
  }

  /**
   mem_prim_move: align both pointers when their low bits agree, copy words, mop up bytes;
   upward when the destination is below the source and downward otherwise.
   A zero length is only safe when both pointers are aligned, since otherwise the first
   do-while loop is entered with a zero counter.
   */
  method MemPrimMove(mem: array<Byte>, dest: nat, src: nat, length: nat)
    requires length < UINT32_LIMIT
    requires 0 < length || !Misaligned(dest, src)
    requires dest + length <= mem.Length && src + length <= mem.Length
    modifies mem
    ensures mem[..] == Moved(old(mem[..]), dest, src, length)
  {
    if dest < src {
      MoveUpward(mem, dest, src, length);
    } else {
      MoveDownward(mem, dest, src, length);
    }
  }

  /** count copies of one unit, end to end. */
  function Tiled(unit: seq<Byte>, count: nat): (r: seq<Byte>)
    requires 0 < |unit|
    ensures |r| == Bytes(count, |unit|)
  {
    if count == 0 then [] else Tiled(unit, count - 1) + unit
  }

  /** Byte j of copy i is byte j of the unit. */
  lemma {:induction false} TiledAt(unit: seq<Byte>, count: nat, i: nat, j: nat)
    requires 0 < |unit| && i < count && j < |unit|
    ensures Bytes(i, |unit|) + j < |Tiled(unit, count)| && Tiled(unit, count)[Bytes(i, |unit|) + j] == unit[j]
  {
    Split(count, count - 1, |unit|);
    assert Bytes(1, |unit|) == |unit|;
    if i < count - 1 {
      TiledAt(unit, count - 1, i, j);
    }
  }

  lemma {:induction false} TiledAppend(unit: seq<Byte>, a: nat, b: nat)
    requires 0 < |unit|
    ensures Tiled(unit, a) + Tiled(unit, b) == Tiled(unit, a + b)
  {
    if b == 0 {
      assert Tiled(unit, a) + [] == Tiled(unit, a);
    } else {
      TiledAppend(unit, a, b - 1);
      assert Tiled(unit, a) + Tiled(unit, b) == Tiled(unit, a) + Tiled(unit, b - 1) + unit;
    }
  }

  /** A word whose four bytes are v fills like the byte v. */
  lemma {:induction false} TiledWordIsByteFill(v: Byte, count: nat)
    ensures Tiled([v, v, v, v], count) == Repeat(v, 4 * count)
  {
    if count != 0 {
      TiledWordIsByteFill(v, count - 1);
    }
  }

  /** `*dp = value` for one unit. */
  method SetUnit(mem: array<Byte>, dp: nat, unit: seq<Byte>)
    requires 0 < |unit| && Aligned(dp, |unit|)
    requires dp + |unit| <= mem.Length
    modifies mem
    ensures mem[..] == Put(old(mem[..]), dp, unit)
  {
    forall k | 0 <= k < |unit| {
      mem[dp + k] := unit[k];
    }
  }

  /** count consecutive statements `*dp++ = value`, with labels as in UnrolledUp. */
  method UnrolledSet(mem: array<Byte>, dp: nat, count: nat, unit: seq<Byte>)
    requires 0 < |unit| && Aligned(dp, |unit|)
    requires dp + Bytes(count, |unit|) <= mem.Length
    modifies mem
    ensures mem[..] == Put(old(mem[..]), dp, Tiled(unit, count))
    decreases count
  {
    if count != 0 {
      Split(count, 1, |unit|);
      LowBitsKept(dp, 1, |unit|);
      SetUnit(mem, dp, unit);
      UnrolledSet(mem, dp + |unit|, count - 1, unit);
      TiledAppend(unit, 1, count - 1);
      assert Tiled(unit, 1) == Tiled(unit, 0) + unit == unit;
      PutAppend(old(mem[..]), dp, unit, Tiled(unit, count - 1));
    }
  }

  /** One pass of the loop below, behind done units already written. */
  method PassSet(mem: array<Byte>, ghost m: Mem, dest: nat, dp: nat, ghost done: nat, pass: nat, unit: seq<Byte>)
    requires 0 < |unit| && Aligned(dp, |unit|) && dp == dest + Bytes(done, |unit|)
    requires dp + Bytes(pass, |unit|) <= |m| && mem[..] == Put(m, dest, Tiled(unit, done))
    modifies mem
    ensures Aligned(dp + Bytes(pass, |unit|), |unit|)
    ensures mem[..] == Put(m, dest, Tiled(unit, done + pass))
  {
    hide Put, Bytes;
    LowBitsKept(dp, pass, |unit|);
    UnrolledSet(mem, dp, pass, unit);
    TiledAppend(unit, done, pass);
    PutAppend(m, dest, Tiled(unit, done), Tiled(unit, pass));
  }

  /** mem_prim_set16 and mem_prim_set32 (unit of 2 and of 4 bytes), and the word loop of mem_prim_set. */
  method MemPrimSetUnits(mem: array<Byte>, dest: nat, length: nat, unit: seq<Byte>)
    requires length < UINT32_LIMIT
    requires 0 < |unit| && Aligned(dest, |unit|)
    requires dest + Bytes(length, |unit|) <= mem.Length
    modifies mem
    ensures mem[..] == Put(old(mem[..]), dest, Tiled(unit, length))
  {
    hide Aligned, Bytes;
    ghost var m := mem[..];
    var dp: nat, len: nat := dest, length;
    NoBytes(|unit|);
    while len != 0
      invariant len <= length && Aligned(dp, |unit|)
      invariant dp == dest + Bytes(length - len, |unit|) && dp + Bytes(len, |unit|) <= mem.Length
      invariant mem[..] == Put(m, dest, Tiled(unit, length - len))
      decreases len
    {
      var pass: nat := if len > 15 then 16 else len;
      Split(len, pass, |unit|);
      Split(length - len + pass, length - len, |unit|);
      PassSet(mem, m, dest, dp, length - len, pass, unit);
      dp, len := dp + Bytes(pass, |unit|), len - pass;
    }
  }

  /** mem_prim_set: bytes up to a word boundary, then words, then the remaining bytes. */
  method MemPrimSet(mem: array<Byte>, dest: nat, length: nat, value: Byte)
    requires length < UINT32_LIMIT
    requires dest + length <= mem.Length
    modifies mem
    ensures mem[..] == Filled(old(mem[..]), dest, length, value)
  {
    ghost var m := mem[..];
    var dp: nat, count: nat := dest, length;
    var value32 := [value, value, value, value];
    while count != 0 && dp % 4 != 0
      invariant count <= length && dp == dest + (length - count)
      invariant mem[..] == Filled(m, dest, length - count, value)
      decreases count
    {
      mem[dp] := value;
      dp, count := dp + 1, count - 1;
    }
    ghost var lead := length - count;
    var lcount := count / 4;
    assert lcount == 0 || dp % 4 == 0;
    if lcount != 0 {
      MemPrimSetUnits(mem, dp, lcount, value32);
    }
    TiledWordIsByteFill(value, lcount);
    PutAppend(m, dest, Repeat(value, lead), Repeat(value, 4 * lcount));
    dp := dp + 4 * lcount;
    assert mem[..] == Filled(m, dest, dp - dest, value);
    count := count % 4;
    while count != 0
      invariant dp + count == dest + length
      invariant mem[..] == Filled(m, dest, dp - dest, value)
      decreases count
    {
      mem[dp] := value;
      dp, count := dp + 1, count - 1;
    }
  }
}
