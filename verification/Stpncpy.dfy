/** stpncpy_s: a run of overlap guards, then a copy that can no longer fail. */
module Stpncpy {
  import opened Memory
  import opened Strings

  const SIZE_LIMIT: nat := RSIZE_MAX_STR + 1

  /** The first guard that fails, or EOK. smax + 1 must not wrap. */
  function GuardErr(dest: nat, dmax: nat, src: nat, smax: nat): int {
    if dest == NULL then ESNULLP
    else if src == NULL then ESNULLP
    else if dmax == 0 then ESZEROL
    else if dmax > RSIZE_MAX_STR then ESLEMAX
    else if dmax < smax + 1 then ESNOSPC
    else if src < dest && src + smax >= dest then ESOVRLP
    else if dest < src && dest + smax >= src then ESOVRLP
    else if src < dest && src + dmax >= dest then ESOVRLP
    else if dest < src && dest + dmax >= src then ESOVRLP
    else EOK
  }

  /** Whether the failing guard also ends dest's string at its first byte. */
  predicate GuardTruncates(dest: nat, dmax: nat, src: nat, smax: nat) {
    dest != NULL &&
    (src == NULL ||
     (0 < dmax <= RSIZE_MAX_STR &&
      (dmax < smax + 1 || (src < dest && src + smax >= dest) || (dest < src && dest + smax >= src))))
  }

  /** What passes the guards: a capacity above smax, and buffers that coincide or leave a gap. */
  lemma GuardsAcceptExactly(dest: nat, dmax: nat, src: nat, smax: nat)
    ensures GuardErr(dest, dmax, src, smax) == EOK <==>
              dest != NULL && src != NULL && smax < dmax <= RSIZE_MAX_STR &&
              (dest == src || src + dmax < dest || dest + dmax < src)
  {
  }

  /** Which code a refusal reports, read off the pointers, their distance and the sizes. */
  lemma RefusalCodes(dest: nat, dmax: nat, src: nat, smax: nat)
    ensures var e := GuardErr(dest, dmax, src, smax);
            (e == ESNULLP <==> dest == NULL || src == NULL) &&
            (e == ESZEROL <==> dest != NULL && src != NULL && dmax == 0) &&
            (e == ESLEMAX <==> dest != NULL && src != NULL && dmax > RSIZE_MAX_STR) &&
            (e == ESNOSPC <==> dest != NULL && src != NULL && 0 < dmax <= RSIZE_MAX_STR && dmax <= smax) &&
            (e == ESOVRLP <==> dest != NULL && src != NULL && smax < dmax <= RSIZE_MAX_STR && dest != src &&
                               Distance(dest, src) <= dmax) &&
            e in {EOK, ESNULLP, ESZEROL, ESLEMAX, ESNOSPC, ESOVRLP}
  {
  }

  /** When a refusal also ends dest's string: a null src, no room for smax, or an overlap within smax bytes. */
  lemma TruncatesExactly(dest: nat, dmax: nat, src: nat, smax: nat)
    ensures var e := GuardErr(dest, dmax, src, smax);
            e != EOK ==>
            (GuardTruncates(dest, dmax, src, smax) <==>
               (dest != NULL && src == NULL) || e == ESNOSPC || (e == ESOVRLP && Distance(dest, src) <= smax))
  {
  }

  /** The characters the copy takes: the source string, cut to smax. */
  function Prefix(m: Mem, src: nat, smax: nat): (t: seq<Byte>)
    requires src <= |m|
    ensures |t| == Min(Len(m, src), smax)
    ensures forall i | 0 <= i < |t| :: t[i] != 0
  {
    Text(m, src)[..Min(Len(m, src), smax)]
  }

  // ------------------------------------------------ how far the closing fill reaches

  /** What is left of a size_t counter after k decrements. */
  function Decremented(smax: nat, k: nat): nat {
    (smax - k) % SIZE_LIMIT
  }

  /** The bytes both fill loops write: sleft of them, and then dleft - sleft as a size_t. */
  function FillLength(sleft: nat, dleft: nat): nat {
    sleft + (dleft - sleft) % SIZE_LIMIT
  }

  /** Where the search for the end stops when dest == src: at the terminator, or after smax characters. */
  function CutAt(n: nat, smax: nat): nat {
    if smax == 0 then n else Min(n, smax)
  }

  /** How far from dest the fill ends, for a string of length n that ends inside dmax. */
  function Reach(n: nat, smax: nat, dmax: nat): nat
    requires smax < dmax && CutAt(n, smax) < dmax
  {
    var k := CutAt(n, smax);
    k + FillLength(Decremented(smax, k), dmax - k)
  }

  lemma CountersLeft(smax: nat, k: nat)
    ensures k <= smax < SIZE_LIMIT ==> Decremented(smax, k) == smax - k
    ensures smax < k <= SIZE_LIMIT ==> Decremented(smax, k) == SIZE_LIMIT + smax - k
  {
  }

  lemma FillLengths(sleft: nat, dleft: nat)
    requires sleft < SIZE_LIMIT && dleft < SIZE_LIMIT
    ensures FillLength(sleft, dleft) == if sleft <= dleft then dleft else SIZE_LIMIT + dleft
  {
  }

  /**
   With dest == src the counter is decremented before it is tested, so smax == 0 wraps it.
   The fill that ends the call stays inside dmax exactly when that has not happened.
   */
  lemma FillerStaysInside(n: nat, smax: nat, dmax: nat)
    requires smax < dmax <= RSIZE_MAX_STR && CutAt(n, smax) < dmax
    ensures Reach(n, smax, dmax) <= dmax <==> !(smax == 0 && 0 < n)
    ensures Reach(n, smax, dmax) == if smax == 0 && 0 < n then SIZE_LIMIT + dmax else dmax
    ensures var k := CutAt(n, smax); Decremented(smax, k) <= dmax - k <==> !(smax == 0 && 0 < n)
  {
    hide Decremented, FillLength;
    var k := CutAt(n, smax);
    CountersLeft(smax, k);
    FillLengths(Decremented(smax, k), dmax - k);
  }

  /** The two fill loops: smax bytes, then the rest of dmax. */
  method FillOut(mem: array<Byte>, ghost m: Mem, p: nat, smax: nat, dmax: nat)
    requires m == mem[..] && smax <= dmax && p + dmax <= |m|
    modifies mem
    ensures mem[..] == Filled(m, p, dmax, 0)
  {
    NullOut(mem, p, smax);
    NullOut(mem, p + smax, dmax - smax);
  }

  /** Clearing from the end of a copied prefix on leaves that prefix with its slack, whatever byte v stood there. */
  lemma PrefixCleared(m: Mem, dest: nat, dmax: nat, src: nat, smax: nat, v: Byte)
    requires smax < dmax && dest + dmax <= |m| && src <= |m|
    ensures var t := Prefix(m, src, smax);
            Filled(Moved(m, dest, src, |t|)[dest + |t| := v], dest + |t|, dmax - |t|, 0) == Holding(m, dest, dmax, t)
  {
    var t := Prefix(m, src, smax);
    assert t == m[src..src + |t|];
  }

  /** `*dest = *src;` and, when no character may follow, `*dest = '\0';`. */
  method CopyOrCut(mem: array<Byte>, ghost m: Mem, dest: nat, src: nat, i: nat, last: bool)
    requires |m| == mem.Length && dest + i < |m| && src + i < |m|
    requires dest + i < src || src + i < dest
    requires mem[..] == Moved(m, dest, src, i)
    modifies mem
    ensures var v := if last then 0 else m[src + i];
            mem[dest + i] == v && mem[..] == Moved(m, dest, src, i)[dest + i := v]
    ensures !last ==> mem[..] == Moved(m, dest, src, i + 1)
  {
    MovedOneMore(m, dest, src, i);
    mem[dest + i] := mem[src + i];
    if last {
      mem[dest + i] := 0;
    }
  }

  /** The copy phase for separate buffers. */
  method CopyApart(mem: array<Byte>, ghost m: Mem, dest: nat, dmax: nat, src: nat, smax: nat) returns (end: nat)
    requires m == mem[..] && smax < dmax && dest + dmax <= |m|
    requires src + dmax < dest || dest + dmax < src
    requires Readable(m, src, smax + 1)
    modifies mem
    ensures end == dest + |Prefix(m, src, smax)|
    ensures mem[..] == Holding(m, dest, dmax, Prefix(m, src, smax))
  {
    hide Moved, Holding, Filled;
    ghost var n := Len(m, src);
    var i, dleft, sleft := 0, dmax, smax;
    MovedNothing(m, dest, src);
    while dleft > 0
      invariant i + dleft == dmax && i + sleft == smax && 0 <= i <= n && 0 <= sleft
      invariant src + i <= |m| && mem[..] == Moved(m, dest, src, i)
      decreases dleft
    {
      CopyOrCut(mem, m, dest, src, i, sleft == 0);
      if mem[dest + i] == 0 {
        assert i == |Prefix(m, src, smax)|;
        PrefixCleared(m, dest, dmax, src, smax, 0);
        FillOut(mem, mem[..], dest + i, sleft, dleft);
        return dest + i;
      }
      dleft, sleft, i := dleft - 1, sleft - 1, i + 1;
    }
    assert false;
    end := dest;
  }

  /** In place the prefix is already there. */
  lemma PrefixStays(m: Mem, dest: nat, dmax: nat, smax: nat, v: Byte)
    requires smax < dmax && dest + dmax <= |m|
    ensures var t := Prefix(m, dest, smax);
            Filled(m[dest + |t| := v], dest + |t|, dmax - |t|, 0) == Holding(m, dest, dmax, t)
  {
    PrefixCleared(m, dest, dmax, dest, smax, v);
    assert Moved(m, dest, dest, |Prefix(m, dest, smax)|) == m;
  }

  /**
   How a call ends. Overrun is a call whose closing fill leaves the buffer; reach tells how
   far from dest that fill goes, and the memory shown is the one in front of it.
   */
  datatype Outcome = Returned(end: nat, err: int) | Overrun(reach: nat)

  /** The search loop for dest == src, which cuts the string after smax characters. */
  method FindCut(mem: array<Byte>, ghost m: Mem, dest: nat, dmax: nat, smax: nat)
    returns (found: bool, i: nat, sleft: nat, dleft: nat)
    requires m == mem[..] && smax < dmax <= RSIZE_MAX_STR && dest + dmax <= |m|
    modifies mem
    ensures found <==> CutAt(Len(m, dest), smax) < dmax
    ensures found ==> i == CutAt(Len(m, dest), smax) && sleft == Decremented(smax, i) && dleft == dmax - i &&
                      mem[..] == m[dest + i := 0]
    ensures !found ==> mem[..] == m
  {
    hide Decremented;
    i, dleft, sleft := 0, dmax, smax;
    while dleft > 0
      invariant i + dleft == dmax && 0 <= i <= Len(m, dest)
      invariant if 0 < smax then i + sleft == smax && 0 <= sleft else sleft == if i == 0 then 0 else SIZE_LIMIT - i
      invariant mem[..] == if 0 < smax && sleft == 0 then m[dest + smax := 0] else m
      decreases dleft
    {
      if mem[dest + i] == 0 {
        CountersLeft(smax, i);
        assert mem[..] == m[dest + i := 0];
        return true, i, sleft, dleft;
      }
      dleft, i := dleft - 1, i + 1;
      sleft := if sleft == 0 then RSIZE_MAX_STR else sleft - 1;
      if sleft == 0 {
        mem[dest + i] := 0;
      }
    }
    return false, i, sleft, dleft;
  }

  /** The copy phase for dest == src: find the terminator or cut the string, and clear what is behind. */
  method CutInPlace(mem: array<Byte>, ghost m: Mem, dest: nat, dmax: nat, smax: nat) returns (o: Outcome)
    requires m == mem[..] && smax < dmax <= RSIZE_MAX_STR && dest + dmax <= |m|
    modifies mem
    ensures var n := Len(m, dest);
            if smax == 0 && dmax <= n then o == Returned(NULL, ESNOSPC) && mem[..] == Filled(m, dest, dmax, 0)
            else if smax == 0 && 0 < n then o == Overrun(Reach(n, smax, dmax)) && o.reach > dmax && mem[..] == m
            else o == Returned(dest + |Prefix(m, dest, smax)|, EOK) &&
                 mem[..] == Holding(m, dest, dmax, Prefix(m, dest, smax))
  {
    hide Decremented, FillLength, Filled, Holding;
    var found, i, sleft, dleft := FindCut(mem, m, dest, dmax, smax);
    if !found {
      NullOut(mem, dest, dmax);
      return Returned(NULL, ESNOSPC);
    }
    FillerStaysInside(Len(m, dest), smax, dmax);
    var reach := i + FillLength(sleft, dleft);
    if sleft > dleft {
      assert mem[..] == m;
      return Overrun(reach);
    }
    PrefixStays(m, dest, dmax, smax, 0);
    FillOut(mem, mem[..], dest + i, sleft, dleft);
    return Returned(dest + i, EOK);
  }

  /** stpncpy_s; err and the returned pointer are the two parts of Returned. */
  method StpncpyS(mem: array<Byte>, dest: nat, dmax: nat, src: nat, smax: nat) returns (o: Outcome)
    requires smax < RSIZE_MAX_STR
    requires dest != NULL ==> dest < mem.Length
    requires GuardErr(dest, dmax, src, smax) == EOK ==> dest + dmax <= mem.Length && Readable(mem[..], src, smax + 1)
    modifies mem
    ensures GuardErr(dest, dmax, src, smax) != EOK ==>
              o == Returned(NULL, GuardErr(dest, dmax, src, smax)) &&
              mem[..] == if GuardTruncates(dest, dmax, src, smax) then old(mem[..])[dest := 0] else old(mem[..])
    ensures GuardErr(dest, dmax, src, smax) == EOK && !(dest == src && smax == 0 < Len(old(mem[..]), src)) ==>
              o == Returned(dest + Min(Len(old(mem[..]), src), smax), EOK) &&
              mem[..] == Holding(old(mem[..]), dest, dmax, Prefix(old(mem[..]), src, smax))
    ensures GuardErr(dest, dmax, src, smax) == EOK && dest == src && smax == 0 && dmax <= Len(old(mem[..]), src) ==>
              o == Returned(NULL, ESNOSPC) && mem[..] == Filled(old(mem[..]), dest, dmax, 0)
    ensures GuardErr(dest, dmax, src, smax) == EOK && dest == src && smax == 0 < Len(old(mem[..]), src) < dmax ==>
              o.Overrun? && o.reach > dmax && mem[..] == old(mem[..])
  {
    if dest == NULL {
      return Returned(NULL, ESNULLP);
    }
    if src == NULL {
      mem[dest] := 0;
      return Returned(NULL, ESNULLP);
    }
    if dmax == 0 {
      return Returned(NULL, ESZEROL);
    }
    if dmax > RSIZE_MAX_STR {
      return Returned(NULL, ESLEMAX);
    }
    if dmax < smax + 1 {
      mem[dest] := 0;
      return Returned(NULL, ESNOSPC);
    }
    if src < dest && src + smax >= dest {
      mem[dest] := 0;
      return Returned(NULL, ESOVRLP);
    }
    if dest < src && dest + smax >= src {
      mem[dest] := 0;
      return Returned(NULL, ESOVRLP);
    }
    if src < dest && src + dmax >= dest {
      return Returned(NULL, ESOVRLP);
    }
    if dest < src && dest + dmax >= src {
      return Returned(NULL, ESOVRLP);
    }
    if dest == src {
      o := CutInPlace(mem, mem[..], dest, dmax, smax);
    } else {
      var end := CopyApart(mem, mem[..], dest, dmax, src, smax);
      o := Returned(end, EOK);
    }
  }

  /** An accepted call that overruns: a string of one character at 8, in a buffer of 4, cut to 0 characters in place. */
  lemma AcceptedOverrun()
    ensures GuardErr(8, 4, 8, 0) == EOK && Reach(1, 0, 4) == SIZE_LIMIT + 4
  {
    FillerStaysInside(1, 0, 4);
  }

  /** After the guards the result reads back as the first smax characters, and nothing outside dest changes. */
  lemma StpncpyOutcome(m: Mem, dest: nat, dmax: nat, src: nat, smax: nat)
    requires smax < dmax && dest + dmax <= |m| && src <= |m|
    ensures var t := Prefix(m, src, smax);
            |t| == Min(Len(m, src), smax) && t <= m[src..] &&
            Holds(Holding(m, dest, dmax, t), m, dest, dmax, t)
  {
    HoldingReadsBack(m, dest, dmax, Prefix(m, src, smax));
  }
}
