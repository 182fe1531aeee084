/**
 strcpy_s, strcat_s and stpncpy_s over the shared memory. Every outcome is a function of the
 two string lengths, the distance of the pointers and the capacity.
 SAFECLIB_STR_NULL_SLACK is on: the unused rest of the destination is always cleared.
 */
module Strings {
  import opened Memory

  /** The bytes before the first NUL at or after p, or all there is when no NUL follows. */
  function Len(m: Mem, p: nat): (n: nat)
    requires p <= |m|
    ensures p + n <= |m|
    ensures forall i | p <= i < p + n :: m[i] != 0
    ensures p + n < |m| ==> m[p + n] == 0
    decreases |m| - p
  {
    if p == |m| || m[p] == 0 then 0 else 1 + Len(m, p + 1)
  }

  /** The C string at p. */
  function Text(m: Mem, p: nat): (t: seq<Byte>)
    requires p <= |m|
    ensures |t| == Len(m, p)
    ensures forall i | 0 <= i < |t| :: t[i] != 0
  {
    m[p..p + Len(m, p)]
  }

  function Min(a: nat, b: nat): nat {
    if a < b then a else b
  }

  function Distance(p: nat, q: nat): nat {
    if p < q then q - p else p - q
  }

  /** The string at s may run on past what is allocated, provided its first k bytes are there. */
  predicate Readable(m: Mem, s: nat, k: nat) {
    s <= |m| && (s + Len(m, s) < |m| || s + k <= |m|)
  }

  /** text at d, cleared up to the capacity dmax. */
  function Holding(m: Mem, d: nat, dmax: nat, text: seq<Byte>): Mem
    requires |text| <= dmax && d + dmax <= |m|
  {
    Put(m, d, text + Repeat(0, dmax - |text|))
  }

  /** `while (n) { *p = '\0'; n--; p++; }`: the null slack loop, and the body of handle_error. */
  method NullOut(mem: array<Byte>, p: nat, n: nat)
    requires p + n <= mem.Length
    modifies mem
    ensures mem[..] == Filled(old(mem[..]), p, n, 0)
  {
    ghost var m := mem[..];
    var q: nat, left: nat := p, n;
    while left != 0
      invariant q + left == p + n && p <= q
      invariant mem[..] == Filled(m, p, q - p, 0)
    {
      mem[q] := 0;
      left, q := left - 1, q + 1;
    }
  }

  lemma MovedOneMore(m: Mem, d: nat, s: nat, i: nat)
    requires d + i < |m| && s + i < |m|
    requires d + i < s || s + i < d
    ensures Moved(m, d, s, i)[s + i] == m[s + i]
    ensures Moved(m, d, s, i)[d + i := m[s + i]] == Moved(m, d, s, i + 1)
  {
  }

  /** Clearing from the copied NUL on leaves the text with its slack. */
  lemma SlackCleared(m: Mem, d: nat, s: nat, n: nat, room: nat)
    requires n < room && d + room <= |m| && s + n < |m|
    ensures Filled(Moved(m, d, s, n + 1), d + n, room - n, 0) == Holding(m, d, room, m[s..s + n])
  {
  }

  /** Clearing everything hides a partial copy. */
  lemma CopyCleared(m: Mem, d: nat, s: nat, i: nat, base: nat, dmax: nat)
    requires base <= d && d + i <= base + dmax <= |m| && s + i <= |m|
    ensures Filled(Moved(m, d, s, i), base, dmax, 0) == Filled(m, base, dmax, 0)
  {
  }

  // ------------------------------------------------- the copy loop of strcpy_s and strcat_s

  /**
   How the copy loop ends: n is the length of the source, gap the steps until the overlap
   bumper is met, room the capacity that is left.
   */
  function CopyErr(n: nat, gap: nat, room: nat): int {
    if n < Min(gap, room) then EOK else if gap < room then ESOVRLP else ESNOSPC
  }

  /** The loop's result in memory m: text laid from dest on, or dmax zeros from base on. */
  function CopyResult(m: Mem, base: nat, dmax: nat, dest: nat, src: nat, err: int): Mem
    requires base <= dest <= base + dmax <= |m| && src <= |m|
    requires err == EOK ==> Len(m, src) <= base + dmax - dest
  {
    if err == EOK then Holding(m, dest, base + dmax - dest, Text(m, src))
    else Filled(m, base, dmax, 0)
  }

  datatype Exit = SawNul | MetBumper | Full

  /**
   The loop itself, up to the point where it leaves: i characters were copied, and the NUL
   after them when that is what ended it. Going below, the destination pointer runs towards
   the bumper src; otherwise the source pointer runs towards the bumper, the buffer's base.
   */
  method CopyChars(mem: array<Byte>, ghost m: Mem, dest: nat, src: nat, room: nat, bumper: nat)
    returns (i: nat, exit: Exit)
    requires if dest < src then bumper == src else src <= bumper <= dest
    requires m == mem[..] && dest + room <= |m|
    requires Readable(m, src, Min(Gap(dest, src, bumper), room))
    modifies mem
    ensures i == Min(Len(m, src), Min(Gap(dest, src, bumper), room))
    ensures exit == (if Len(m, src) < Min(Gap(dest, src, bumper), room) then SawNul
                     else if Gap(dest, src, bumper) < room then MetBumper else Full)
    ensures src + (if exit.SawNul? then i + 1 else i) <= |m|
    ensures mem[..] == Moved(m, dest, src, if exit.SawNul? then i + 1 else i)
  {
    hide Moved;
    ghost var n, gap := Len(m, src), Gap(dest, src, bumper);
    var below := dest < src;
    var left := room;
    i := 0;
    MovedNothing(m, dest, src);
    while left > 0
      invariant i + left == room && i <= n && i <= gap && src + i <= |m|
      invariant mem[..] == Moved(m, dest, src, i)
    {
      if (if below then dest + i else src + i) == bumper {
        return i, MetBumper;
      }
      CopyOne(mem, m, dest, src, i);
      if mem[dest + i] == 0 {
        return i, SawNul;
      }
      left, i := left - 1, i + 1;
    }
    return i, Full;
  }

  /** The steps until the moving pointer meets the bumper. */
  function Gap(dest: nat, src: nat, bumper: nat): nat {
    if dest < src then src - dest else if src <= bumper then bumper - src else 0
  }

  /** `*dest = *src` on a source the copy has not overwritten. */
  method CopyOne(mem: array<Byte>, ghost m: Mem, dest: nat, src: nat, i: nat)
    requires |m| == mem.Length && dest + i < |m| && src + i < |m|
    requires dest + i < src || src + i < dest
    requires mem[..] == Moved(m, dest, src, i)
    modifies mem
    ensures mem[..] == Moved(m, dest, src, i + 1) && mem[dest + i] == m[src + i]
  {
    MovedOneMore(m, dest, src, i);
    mem[dest + i] := mem[src + i];
  }

  /** The exit on the copied NUL: clear the slack behind the text. */
  method ClearSlack(mem: array<Byte>, ghost m: Mem, dest: nat, src: nat, i: nat, room: nat)
    requires i < room && dest + room <= |m| && src + i < |m|
    requires mem[..] == Moved(m, dest, src, i + 1)
    modifies mem
    ensures mem[..] == Holding(m, dest, room, m[src..src + i])
  {
    SlackCleared(m, dest, src, i, room);
    NullOut(mem, dest + i, room - i);
  }

  /** The other exits: clear the whole buffer. */
  method GiveUp(mem: array<Byte>, ghost m: Mem, base: nat, dmax: nat, dest: nat, src: nat, i: nat)
    requires base <= dest && dest + i <= base + dmax <= |m| && src + i <= |m|
    requires mem[..] == Moved(m, dest, src, i)
    modifies mem
    ensures mem[..] == Filled(m, base, dmax, 0)
  {
    CopyCleared(m, dest, src, i, base, dmax);
    NullOut(mem, base, dmax);
  }

  /**
   The loop with its three exits: clear the slack and succeed, or clear all of dmax bytes
   from base on and fail.
   */
  method CopyOrClear(mem: array<Byte>, ghost m: Mem, base: nat, dmax: nat, dest: nat, src: nat, bumper: nat)
    returns (err: int)
    requires m == mem[..] && base <= dest <= base + dmax <= |m|
    requires if dest < src then bumper == src else src <= bumper <= dest
    requires Readable(m, src, Min(Gap(dest, src, bumper), base + dmax - dest))
    modifies mem
    ensures err == CopyErr(Len(m, src), Gap(dest, src, bumper), base + dmax - dest)
    ensures mem[..] == CopyResult(m, base, dmax, dest, src, err)
  {
    hide Moved, Filled, Holding;
    var room := base + dmax - dest;
    var i, exit := CopyChars(mem, m, dest, src, room, bumper);
    if exit.SawNul? {
      ClearSlack(mem, m, dest, src, i, room);
      err := EOK;
    } else {
      GiveUp(mem, m, base, dmax, dest, src, i);
      err := if exit.MetBumper? then ESOVRLP else ESNOSPC;
    }
  }

  // ---------------------------------------------------------------- strcpy_s

  /** The memory strcpy_s leaves once its guards on dest and dmax have passed. */
  function CopiedString(m: Mem, dest: nat, dmax: nat, src: nat): Mem
    requires dest != src && dest + dmax <= |m| && src <= |m|
  {
    CopyResult(m, dest, dmax, dest, src, CopyErr(Len(m, src), Distance(dest, src), dmax))
  }

  /**
   strcpy_s. When src is valid it may be longer than the destination, overlap it, or lack a
   terminator, as long as the bytes the loop can reach exist.
   */
  method StrcpyS(mem: array<Byte>, dest: nat, dmax: nat, src: nat) returns (err: int)
    requires dest != NULL && dmax <= RSIZE_MAX_STR ==> dest + dmax <= mem.Length
    requires src != NULL && dest != NULL ==> Readable(mem[..], src, Min(Distance(dest, src), dmax))
    modifies mem
    ensures dest == NULL ==> err == ESNULLP
    ensures dest != NULL && dmax == 0 ==> err == ESZEROL
    ensures dest != NULL && dmax > RSIZE_MAX_STR ==> err == ESLEMAX
    ensures dest == NULL || dmax == 0 || dmax > RSIZE_MAX_STR || dest == src ==> mem[..] == old(mem[..])
    ensures dest != NULL && 0 < dmax <= RSIZE_MAX_STR && src == NULL ==>
              err == ESNULLP && mem[..] == Filled(old(mem[..]), dest, dmax, 0)
    ensures dest != NULL && 0 < dmax <= RSIZE_MAX_STR && src == dest ==> err == EOK
    ensures dest != NULL && 0 < dmax <= RSIZE_MAX_STR && src != NULL && dest != src ==>
              err == CopyErr(Len(old(mem[..]), src), Distance(dest, src), dmax) &&
              mem[..] == CopiedString(old(mem[..]), dest, dmax, src)
  {
    if dest == NULL {
      return ESNULLP;
    }
    if dmax == 0 {
      return ESZEROL;
    }
    if dmax > RSIZE_MAX_STR {
      return ESLEMAX;
    }
    if src == NULL {
      NullOut(mem, dest, dmax);
      return ESNULLP;
    }
    if dest == src {
      return EOK;
    }
    ghost var m := mem[..];
    if dest < src {
      err := CopyOrClear(mem, m, dest, dmax, dest, src, src);
    } else {
      err := CopyOrClear(mem, m, dest, dmax, dest, src, dest);
    }
  }

  /** r is m with the string text in dest[0..dmax), NULs after it, and nothing else changed. */
  ghost predicate Holds(r: Mem, m: Mem, dest: nat, dmax: nat, text: seq<Byte>) {
    |r| == |m| && dest + dmax <= |m| && |text| < dmax &&
    r[..dest] == m[..dest] && r[dest + dmax..] == m[dest + dmax..] &&
    Len(r, dest) == |text| && r[dest..dest + |text|] == text &&
    forall i | dest + |text| <= i < dest + dmax :: r[i] == 0
  }

  /** r is m with dest[0..dmax) cleared and nothing else changed. */
  ghost predicate Cleared(r: Mem, m: Mem, dest: nat, dmax: nat) {
    |r| == |m| && dest + dmax <= |m| &&
    r[..dest] == m[..dest] && r[dest + dmax..] == m[dest + dmax..] &&
    forall i | dest <= i < dest + dmax :: r[i] == 0
  }

  /** A text laid down with its slack reads back as that text. */
  lemma HoldingReadsBack(m: Mem, d: nat, dmax: nat, text: seq<Byte>)
    requires |text| < dmax && d + dmax <= |m|
    requires forall i | 0 <= i < |text| :: text[i] != 0
    ensures Holds(Holding(m, d, dmax, text), m, d, dmax, text)
  {
    var r := Holding(m, d, dmax, text);
    forall i | 0 <= i < |text|
      ensures r[d + i] == text[i]
    {
    }
    assert r[d + |text|] == 0;
  }

  lemma FilledClears(m: Mem, d: nat, dmax: nat)
    requires d + dmax <= |m|
    ensures Cleared(Filled(m, d, dmax, 0), m, d, dmax)
  {
  }

  /**
   strcpy_s on distinct valid pointers, exactly. It succeeds when the source ends before it
   runs into the other buffer and before the capacity does; dest is then the source string.
   */
  lemma StrcpyOutcome(m: Mem, dest: nat, dmax: nat, src: nat)
    requires dest != src && 0 < dmax && dest + dmax <= |m| && src <= |m|
    ensures var n, d, r := Len(m, src), Distance(dest, src), CopiedString(m, dest, dmax, src);
            var err := CopyErr(n, d, dmax);
            (err == EOK <==> n < d && n < dmax) && (err == ESOVRLP <==> d <= n && d < dmax) &&
            (err == ESNOSPC <==> dmax <= n && dmax <= d) &&
            if err == EOK then Holds(r, m, dest, dmax, Text(m, src)) else Cleared(r, m, dest, dmax)
  {
    var n := Len(m, src);
    if n < Min(Distance(dest, src), dmax) {
      HoldingReadsBack(m, dest, dmax, Text(m, src));
    } else {
      FilledClears(m, dest, dmax);
    }
  }

  // ---------------------------------------------------------------- strcat_s

  /** mlen and n are the lengths of dest and src, d their distance. */
  function CatErr(mlen: nat, n: nat, below: bool, d: nat, dmax: nat): int {
    if below && d < mlen && d < dmax then ESOVRLP
    else if mlen >= dmax then ESUNTERM
    else CopyErr(n, if below then d - mlen else d, dmax - mlen)
  }

  /** The memory strcat_s leaves once its guards have passed. */
  function Concatenated(m: Mem, dest: nat, dmax: nat, src: nat): Mem
    requires dest + dmax <= |m| && src <= |m|
  {
    var mlen, n := Len(m, dest), Len(m, src);
    if CatErr(mlen, n, dest < src, Distance(dest, src), dmax) == EOK
    then Holding(m, dest, dmax, Text(m, dest) + Text(m, src))
    else Filled(m, dest, dmax, 0)
  }

  /** The first loop of strcat_s: find the end of dest, or fail on the way. */
  method FindEnd(mem: array<Byte>, ghost m: Mem, dest: nat, dmax: nat, src: nat) returns (err: int, end: nat)
    requires m == mem[..] && 0 < dmax && dest + dmax <= |m|
    modifies mem
    ensures dest <= end <= dest + dmax
    ensures var mlen := Len(m, dest);
            if dest < src < dest + Min(mlen, dmax) then err == ESOVRLP
            else if dmax <= mlen then err == ESUNTERM
            else err == EOK && end == dest + mlen
    ensures mem[..] == if err == EOK then m else Filled(m, dest, dmax, 0)
  {
    var left := dmax;
    end := dest;
    while mem[end] != 0
      invariant dest <= end && end + left == dest + dmax && 0 < left
      invariant end <= dest + Len(m, dest) && (dest < src ==> end <= src)
      invariant mem[..] == m
      decreases left
    {
      if dest < src && end == src {
        NullOut(mem, dest, dmax);
        return ESOVRLP, end;
      }
      end, left := end + 1, left - 1;
      if left == 0 {
        NullOut(mem, dest, dmax);
        return ESUNTERM, end;
      }
    }
    return EOK, end;
  }

  /** What strcat_s needs of its pointers: dmax bytes at dest, and the part of src the loop can reach. */
  predicate CatReadable(m: Mem, dest: nat, dmax: nat, src: nat) {
    dest + dmax <= |m| && src <= |m| &&
    var mlen := Len(m, dest);
    mlen < dmax && !(dest < src < dest + mlen) ==>
      Readable(m, src, Min(if dest < src then src - dest - mlen else dest - src, dmax - mlen))
  }

  method StrcatS(mem: array<Byte>, dest: nat, dmax: nat, src: nat) returns (err: int)
    requires dest != NULL && src != NULL && 0 < dmax <= RSIZE_MAX_STR ==> CatReadable(mem[..], dest, dmax, src)
    modifies mem
    ensures dest == NULL || src == NULL ==> err == ESNULLP
    ensures dest != NULL && src != NULL && dmax == 0 ==> err == ESZEROL
    ensures dest != NULL && src != NULL && dmax > RSIZE_MAX_STR ==> err == ESLEMAX
    ensures dest == NULL || src == NULL || dmax == 0 || dmax > RSIZE_MAX_STR ==> mem[..] == old(mem[..])
    ensures dest != NULL && src != NULL && 0 < dmax <= RSIZE_MAX_STR ==>
              err == CatErr(Len(old(mem[..]), dest), Len(old(mem[..]), src), dest < src, Distance(dest, src), dmax) &&
              mem[..] == Concatenated(old(mem[..]), dest, dmax, src)
  {
    if dest == NULL {
      return ESNULLP;
    }
    if src == NULL {
      return ESNULLP;
    }
    if dmax == 0 {
      return ESZEROL;
    }
    if dmax > RSIZE_MAX_STR {
      return ESLEMAX;
    }
    err := Concatenate(mem, mem[..], dest, dmax, src);
  }

  /** strcat_s behind its guards. */
  method Concatenate(mem: array<Byte>, ghost m: Mem, dest: nat, dmax: nat, src: nat) returns (err: int)
    requires m == mem[..] && 0 < dmax && CatReadable(m, dest, dmax, src)
    modifies mem
    ensures err == CatErr(Len(m, dest), Len(m, src), dest < src, Distance(dest, src), dmax)
    ensures mem[..] == Concatenated(m, dest, dmax, src)
  {
    var end: nat;
    err, end := FindEnd(mem, m, dest, dmax, src);
    if err == EOK {
      err := Append(mem, m, dest, dmax, end, src);
    }
  }

  /** Once the end of dest is found: the copy loop with its bumper. */
  method Append(mem: array<Byte>, ghost m: Mem, dest: nat, dmax: nat, end: nat, src: nat) returns (err: int)
    requires m == mem[..] && CatReadable(m, dest, dmax, src)
    requires end == dest + Len(m, dest) < dest + dmax && !(dest < src < end)
    modifies mem
    ensures err == CatErr(Len(m, dest), Len(m, src), dest < src, Distance(dest, src), dmax)
    ensures mem[..] == Concatenated(m, dest, dmax, src)
  {
    hide Holding, Filled;
    var bumper := if dest < src then src else dest;
    LoopErr(Len(m, dest), Len(m, src), dest, src, dmax, bumper);
    err := CopyOrClear(mem, m, dest, dmax, end, src, bumper);
    LoopResult(m, dest, dmax, end, src, err);
  }

  /** The loop's error, measured from the end of dest, is that of the whole call. */
  lemma LoopErr(mlen: nat, n: nat, dest: nat, src: nat, dmax: nat, bumper: nat)
    requires mlen < dmax && !(dest < src < dest + mlen)
    requires bumper == if dest < src then src else dest
    ensures CopyErr(n, Gap(dest + mlen, src, bumper), dmax - mlen) ==
            CatErr(mlen, n, dest < src, Distance(dest, src), dmax)
  {
  }

  /** What the loop leaves, seen from the front of dest. */
  lemma LoopResult(m: Mem, dest: nat, dmax: nat, end: nat, src: nat, err: int)
    requires dest + dmax <= |m| && src <= |m| && end == dest + Len(m, dest) < dest + dmax
    requires err == EOK ==> Len(m, src) <= dest + dmax - end
    ensures CopyResult(m, dest, dmax, end, src, err) ==
            if err == EOK then Holding(m, dest, dmax, Text(m, dest) + Text(m, src)) else Filled(m, dest, dmax, 0)
  {
    hide Holding, Filled;
    if err == EOK {
      HoldingBehind(m, dest, dmax, Text(m, dest), Text(m, src));
    }
  }

  /** Laying b with its slack behind an a that is already there is laying a + b. */
  lemma HoldingBehind(m: Mem, d: nat, dmax: nat, a: seq<Byte>, b: seq<Byte>)
    requires |a| + |b| <= dmax && d + dmax <= |m| && m[d..d + |a|] == a
    ensures Holding(m, d + |a|, dmax - |a|, b) == Holding(m, d, dmax, a + b)
  {
    var l, r := Holding(m, d + |a|, dmax - |a|, b), Holding(m, d, dmax, a + b);
    forall i | 0 <= i < |m|
      ensures l[i] == r[i]
    {
      if d <= i < d + |a| {
        assert m[i] == m[d..d + |a|][i - d];
      }
    }
  }

  /** strcat_s on valid pointers, exactly; on success dest is the old dest followed by src. */
  lemma StrcatOutcome(m: Mem, dest: nat, dmax: nat, src: nat)
    requires 0 < dmax && dest + dmax <= |m| && src <= |m|
    ensures var mlen, n, d := Len(m, dest), Len(m, src), Distance(dest, src);
            var r := Concatenated(m, dest, dmax, src);
            var err := CatErr(mlen, n, dest < src, d, dmax);
            if (if dest < src then mlen + n < d && mlen + n < dmax else n < d && mlen + n < dmax)
            then err == EOK && Holds(r, m, dest, dmax, Text(m, dest) + Text(m, src))
            else err != EOK && Cleared(r, m, dest, dmax)
  {
    var mlen, n := Len(m, dest), Len(m, src);
    if CatErr(mlen, n, dest < src, Distance(dest, src), dmax) == EOK {
      HoldingReadsBack(m, dest, dmax, Text(m, dest) + Text(m, src));
    } else {
      FilledClears(m, dest, dmax);
    }
  }

  /** Which error strcat_s reports, read off the lengths, the distance and the capacity. */
  lemma StrcatErrors(mlen: nat, n: nat, below: bool, d: nat, dmax: nat)
    requires below ==> 0 < d
    ensures var e := CatErr(mlen, n, below, d, dmax);
            (e == ESUNTERM <==> mlen >= dmax && (below ==> d >= dmax)) &&
            (e == ESNOSPC <==> mlen < dmax <= mlen + n && (if below then dmax <= d else dmax <= mlen + d)) &&
            (e == EOK || e == ESUNTERM || e == ESNOSPC || e == ESOVRLP)
  {
  }
}
