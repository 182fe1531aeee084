/**
 memcpy_s and memmove_s: the guards of C11 sections K.3.7.1.1 and K.3.7.1.2 in front of the
 primitives. Sizes are size_t in C and uint32_t in the primitives; that no size is cut off
 on the way down is a precondition the guards have to establish.
 */
module MemCopy {
  import opened Memory
  import opened MemPrimitives

  /** The objects the caller promises: dmax bytes at dest, and smax bytes at src once smax passed its guards. */
  predicate ValidOperands(size: nat, dest: nat, dmax: nat, src: nat, smax: nat) {
    (dest != NULL && dmax <= RSIZE_MAX_MEM ==> dest + dmax <= size) &&
    (src != NULL && smax <= dmax <= RSIZE_MAX_MEM ==> src + smax <= size)
  }

  predicate DestUsable(dest: nat, dmax: nat) {
    dest != NULL && 0 < dmax <= RSIZE_MAX_MEM
  }

  predicate Disjoint(p: nat, n: nat, q: nat, k: nat) {
    p + n <= q || q + k <= p
  }

  function MemmoveErr(dest: nat, dmax: nat, src: nat, smax: nat): int {
    if dest == NULL then ESNULLP
    else if dmax == 0 then ESZEROL
    else if dmax > RSIZE_MAX_MEM then ESLEMAX
    else if smax == 0 then ESZEROL
    else if smax > dmax then ESLEMAX
    else if src == NULL then ESNULLP
    else EOK
  }

  function MemcpyErr(dest: nat, dmax: nat, src: nat, smax: nat): int {
    var err := MemmoveErr(dest, dmax, src, smax);
    if err == EOK && ((src < dest < src + smax) || (dest < src < dest + dmax)) then ESOVRLP else err
  }

  /** The memory both operations leave once their error code is known. */
  function MemoryAfter(m: Mem, dest: nat, dmax: nat, src: nat, smax: nat, err: int): Mem
    requires ValidOperands(|m|, dest, dmax, src, smax)
    requires err == EOK ==> MemmoveErr(dest, dmax, src, smax) == EOK
  {
    if !DestUsable(dest, dmax) then m
    else if err == EOK then Moved(m, dest, src, smax)
    else Filled(m, dest, dmax, 0)
  }

  method MemmoveS(mem: array<Byte>, dest: nat, dmax: nat, src: nat, smax: nat) returns (err: int)
    requires ValidOperands(mem.Length, dest, dmax, src, smax)
    modifies mem
    ensures err == MemmoveErr(dest, dmax, src, smax)
    ensures mem[..] == MemoryAfter(old(mem[..]), dest, dmax, src, smax, err)
  {
    if dest == NULL {
      return ESNULLP;
    }
    if dmax == 0 {
      return ESZEROL;
    }
    if dmax > RSIZE_MAX_MEM {
      return ESLEMAX;
    }
    if smax == 0 {
      MemPrimSet(mem, dest, dmax, 0);
      return ESZEROL;
    }
    if smax > dmax {
      MemPrimSet(mem, dest, dmax, 0);
      return ESLEMAX;
    }
    if src == NULL {
      MemPrimSet(mem, dest, dmax, 0);
      return ESNULLP;
    }
    MemPrimMove(mem, dest, src, smax);
    return EOK;
  }

  method MemcpyS(mem: array<Byte>, dest: nat, dmax: nat, src: nat, smax: nat) returns (err: int)
    requires ValidOperands(mem.Length, dest, dmax, src, smax)
    modifies mem
    ensures err == MemcpyErr(dest, dmax, src, smax)
    ensures mem[..] == MemoryAfter(old(mem[..]), dest, dmax, src, smax, err)
  {
    if dest == NULL {
      return ESNULLP;
    }
    if dmax == 0 {
      return ESZEROL;
    }
    if dmax > RSIZE_MAX_MEM {
      return ESLEMAX;
    }
    if smax == 0 {
      MemPrimSet(mem, dest, dmax, 0);
      return ESZEROL;
    }
    if smax > dmax {
      MemPrimSet(mem, dest, dmax, 0);
      return ESLEMAX;
    }
    if src == NULL {
      MemPrimSet(mem, dest, dmax, 0);
      return ESNULLP;
    }
    if (dest > src && dest < src + smax) || (src > dest && src < dest + dmax) {
      MemPrimSet(mem, dest, dmax, 0);
      return ESOVRLP;
    }
    MemPrimMove(mem, dest, src, smax);
    return EOK;
  }

  /**
   An accepted memcpy_s is an accepted memmove_s with the same result, between ranges that
   coincide or do not meet, and it leaves the source as it was.
   */
  lemma MemcpyIsMemmoveWithoutOverlap(m: Mem, dest: nat, dmax: nat, src: nat, smax: nat)
    requires ValidOperands(|m|, dest, dmax, src, smax)
    requires MemcpyErr(dest, dmax, src, smax) == EOK
    ensures MemmoveErr(dest, dmax, src, smax) == EOK
    ensures dest == src || Disjoint(dest, smax, src, smax)
    ensures MemoryAfter(m, dest, dmax, src, smax, EOK)[dest..dest + smax] == m[src..src + smax]
    ensures MemoryAfter(m, dest, dmax, src, smax, EOK)[src..src + smax] == m[src..src + smax]
  {
    SourceSurvives(m, dest, src, smax);
  }

  /**
   What memcpy_s accepts, exactly. The standard only forbids the smax copied bytes to
   overlap; the code also refuses a source that lies in the unused rest of the destination.
   */
  lemma MemcpyAcceptsExactly(dest: nat, dmax: nat, src: nat, smax: nat)
    ensures MemcpyErr(dest, dmax, src, smax) == EOK <==>
              DestUsable(dest, dmax) && src != NULL && 0 < smax <= dmax &&
              (dest == src || src + smax <= dest || dest + dmax <= src)
    ensures MemmoveErr(dest, dmax, src, smax) == EOK && Disjoint(dest, smax, src, smax) ==>
              (MemcpyErr(dest, dmax, src, smax) == EOK <==> !(dest + smax <= src < dest + dmax))
  {
  }

  /** What memmove_s accepts, exactly: every overlap, as long as the sizes are in order. */
  lemma MemmoveAcceptsExactly(dest: nat, dmax: nat, src: nat, smax: nat)
    ensures MemmoveErr(dest, dmax, src, smax) == EOK <==> DestUsable(dest, dmax) && src != NULL && 0 < smax <= dmax
  {
  }

  /** An accepted call, whatever the overlap, delivers the old source bytes to dest and changes nothing else. */
  lemma AcceptedCallDelivers(m: Mem, dest: nat, dmax: nat, src: nat, smax: nat)
    requires ValidOperands(|m|, dest, dmax, src, smax)
    requires MemmoveErr(dest, dmax, src, smax) == EOK || MemcpyErr(dest, dmax, src, smax) == EOK
    ensures dest + smax <= |m| && src + smax <= |m|
    ensures MemmoveErr(dest, dmax, src, smax) == EOK
    ensures var r := MemoryAfter(m, dest, dmax, src, smax, EOK);
            |r| == |m| && r[dest..dest + smax] == m[src..src + smax] &&
            r[..dest] == m[..dest] && r[dest + smax..] == m[dest + smax..]
  {
  }

  /** Which code a refusal reports; the guards come in the order of the C text. */
  lemma RefusalCodes(dest: nat, dmax: nat, src: nat, smax: nat)
    ensures var e := MemmoveErr(dest, dmax, src, smax);
            (e == ESNULLP <==> dest == NULL || (DestUsable(dest, dmax) && 0 < smax <= dmax && src == NULL)) &&
            (e == ESZEROL <==> dest != NULL && (dmax == 0 || (dmax <= RSIZE_MAX_MEM && smax == 0))) &&
            (e == ESLEMAX <==> dest != NULL && (dmax > RSIZE_MAX_MEM || 0 < dmax < smax)) &&
            e in {EOK, ESNULLP, ESZEROL, ESLEMAX}
    ensures var e, c := MemmoveErr(dest, dmax, src, smax), MemcpyErr(dest, dmax, src, smax);
            (e != EOK ==> c == e) && (e == EOK ==> c == EOK || c == ESOVRLP)
  {
  }

  /** A refused call either touches nothing or clears exactly the destination. */
  lemma RejectionClearsOnlyDest(m: Mem, dest: nat, dmax: nat, src: nat, smax: nat, err: int)
    requires ValidOperands(|m|, dest, dmax, src, smax)
    requires err == MemcpyErr(dest, dmax, src, smax) || err == MemmoveErr(dest, dmax, src, smax)
    requires err != EOK
    ensures var r := MemoryAfter(m, dest, dmax, src, smax, err);
            if DestUsable(dest, dmax)
            then |r| == |m| && r[..dest] == m[..dest] && r[dest + dmax..] == m[dest + dmax..] &&
                 forall i | dest <= i < dest + dmax :: r[i] == 0
            else r == m
  {
  }

  /** A copy between disjoint ranges that memmove_s performs and memcpy_s refuses. */
  lemma DisjointCopyRefused()
    ensures Disjoint(16, 4, 20, 4)
    ensures MemmoveErr(16, 8, 20, 4) == EOK && MemcpyErr(16, 8, 20, 4) == ESOVRLP
  {
  }
}
