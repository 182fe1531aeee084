/**
 u16cstok (tchar.cpp): the tokenizer keeps a static cursor into the caller's text, which it
 never writes, and hands every token out in one static buffer that only ever grows.
 */
module Tokenizer {
  import opened Wrappers

  type Char16 = x: int | 0 <= x < 0x1_0000
  const SIZE_MAX: nat := 0xFFFF_FFFF_FFFF_FFFF

  // ------------------------------------------------ NUL-terminated text

  ghost predicate Terminated(a: seq<Char16>) {
    exists z :: 0 <= z < |a| && a[z] == 0
  }

  ghost function FirstNul(a: seq<Char16>, i: nat): (r: nat)
    requires exists z :: i <= z < |a| && a[z] == 0
    ensures i <= r < |a| && a[r] == 0 && forall k | i <= k < r :: a[k] != 0
    decreases |a| - i
  {
    if a[i] == 0 then i else FirstNul(a, i + 1)
  }

  /** The text in front of the terminator. */
  ghost function Str(a: seq<Char16>): (s: seq<Char16>)
    requires Terminated(a)
    ensures |s| < |a| && s == a[..|s|] && a[|s|] == 0 && 0 !in s
  {
    a[..FirstNul(a, 0)]
  }

  /** The bounded length both length functions are after. */
  ghost function UnitsBefore(a: seq<Char16>, n: nat): nat
    requires n <= |a| || Terminated(a)
  {
    if Terminated(a) && |Str(a)| < n then |Str(a)| else n
  }

  /** u16csnlen: exact, except that a text of length zero is reported as SIZE_MAX. */
  method U16csnlen(str: array?<Char16>, n: nat) returns (ret: nat)
    requires str != null ==> n <= str.Length || Terminated(str[..])
    ensures ret == if str == null then 0
                   else if UnitsBefore(str[..], n) == 0 then SIZE_MAX
                   else UnitsBefore(str[..], n)
  {
    if str == null {
      return 0;
    }
    ret := SIZE_MAX;
    var cursor := 0;
    while cursor < n
      invariant cursor <= n && cursor <= UnitsBefore(str[..], n)
      invariant ret == if cursor == 0 then SIZE_MAX else cursor
      invariant forall k | 0 <= k < cursor :: k < str.Length && str[k] != 0
      decreases n - cursor
    {
      if str[cursor] == 0 {
        break;
      }
      cursor := cursor + 1;
      ret := cursor;
    }
  }

  // ------------------------------------------------ one call, on positions

  /** The first position from c on that does (or does not) hold a delimiter, or the end. */
  function Skip(s: seq<Char16>, d: set<Char16>, c: nat, over: bool): (r: nat)
    requires c <= |s|
    ensures c <= r <= |s| && forall k | c <= k < r :: s[k] in d <==> over
    ensures r < |s| ==> (s[r] in d <==> !over)
    decreases |s| - c
  {
    if c < |s| && (s[c] in d <==> over) then Skip(s, d, c + 1, over) else c
  }

  /** What a call with the cursor at c finds: the extent of a token or nothing, and the new cursor. */
  function Next(s: seq<Char16>, d: set<Char16>, c: nat): (r: (Option<(nat, nat)>, nat))
    requires c <= |s|
    ensures c <= r.1 <= |s|
    ensures if r.0.None? then r.1 == |s| else c <= r.0.value.0 < r.0.value.1 == r.1
  {
    var i := Skip(s, d, c, true);
    if i == |s| then (None, |s|)
    else var j := Skip(s, d, i, false); (Some((i, j)), j)
  }

  // ------------------------------------------------ the runs of a text

  /** s[i..j] is a maximal stretch without delimiters. */
  predicate MaximalRun(s: seq<Char16>, d: set<Char16>, i: nat, j: nat) {
    i < j <= |s| && (forall k | i <= k < j :: s[k] !in d) &&
    (i == 0 || s[i - 1] in d) && (j == |s| || s[j] in d)
  }

  /** The tokens still to come from position c on. */
  function RunsFrom(s: seq<Char16>, d: set<Char16>, c: nat): seq<(nat, nat)>
    requires c <= |s|
    decreases |s| - c
  {
    var (found, next) := Next(s, d, c);
    if found.None? then [] else [found.value] + RunsFrom(s, d, next)
  }

  /** A position where a call can find the cursor: not inside a run. */
  predicate Between(s: seq<Char16>, d: set<Char16>, c: nat) {
    c <= |s| && (c == 0 || c == |s| || s[c - 1] in d || s[c] in d)
  }

  /** Seen from such a position, the first maximal run is the one a call finds. */
  lemma FirstRun(s: seq<Char16>, d: set<Char16>, c: nat, i: nat, j: nat)
    requires Between(s, d, c) && c <= i && MaximalRun(s, d, i, j)
    ensures var (found, next) := Next(s, d, c);
            found.Some? && (if i < next then found.value == (i, j) else next < i)
  {
    var first := Skip(s, d, c, true);
    assert s[i] !in d;
    assert first <= i;
    var next := Skip(s, d, first, false);
  }

  /** From such a position exactly the maximal runs still ahead come out. */
  lemma {:induction false} RunsAreMaximal(s: seq<Char16>, d: set<Char16>, c: nat)
    requires Between(s, d, c)
    ensures forall i: nat, j: nat :: (i, j) in RunsFrom(s, d, c) <==> c <= i && MaximalRun(s, d, i, j)
    decreases |s| - c
  {
    var runs := RunsFrom(s, d, c);
    var (found, next) := Next(s, d, c);
    if found.Some? {
      var rest := RunsFrom(s, d, next);
      RunsAreMaximal(s, d, next);
      assert MaximalRun(s, d, found.value.0, next);
      forall i: nat, j: nat
        ensures (i, j) in runs <==> c <= i && MaximalRun(s, d, i, j)
      {
        if c <= i && MaximalRun(s, d, i, j) {
          FirstRun(s, d, c, i, j);
        }
        assert (i, j) in runs <==> (i, j) == found.value || (i, j) in rest;
      }
    } else {
      forall i: nat, j: nat
        ensures !(c <= i && MaximalRun(s, d, i, j))
      {
        if c <= i && MaximalRun(s, d, i, j) {
          FirstRun(s, d, c, i, j);
        }
      }
    }
  }

  predicate InOrder(runs: seq<(nat, nat)>) {
    forall a, b | 0 <= a < b < |runs| :: runs[a].1 < runs[b].0
  }

  /** The runs come in order, a delimiter at least apart. */
  lemma {:induction false} RunsInOrder(s: seq<Char16>, d: set<Char16>, c: nat)
    requires Between(s, d, c)
    ensures forall r | r in RunsFrom(s, d, c) :: c <= r.0 < r.1 && (0 < c < |s| && s[c] in d ==> c < r.0)
    ensures InOrder(RunsFrom(s, d, c))
    decreases |s| - c
  {
    var runs := RunsFrom(s, d, c);
    var (found, next) := Next(s, d, c);
    if found.Some? {
      var rest := RunsFrom(s, d, next);
      RunsInOrder(s, d, next);
      forall a, b | 0 <= a < b < |runs|
        ensures runs[a].1 < runs[b].0
      {
        assert runs[b] == rest[b - 1] && rest[b - 1] in rest;
        if a > 0 {
          assert runs[a] == rest[a - 1];
        } else {
          assert next < |s| by { assert Next(s, d, |s|).0.None?; }
          assert s[next] in d;
        }
      }
    }
  }

  // ------------------------------------------------ whole runs of calls

  /** The cursor after one call with the text and k more without. */
  function CursorAfter(s: seq<Char16>, d: set<Char16>, k: nat): (c: nat)
    ensures c <= |s|
  {
    if k == 0 then 0 else Next(s, d, CursorAfter(s, d, k - 1)).1
  }

  /** A call takes the first run off the list. */
  lemma OneCall(s: seq<Char16>, d: set<Char16>, c: nat)
    requires c <= |s|
    ensures var runs, (found, next) := RunsFrom(s, d, c), Next(s, d, c);
            if runs == [] then found == None && RunsFrom(s, d, next) == []
            else found == Some(runs[0]) && RunsFrom(s, d, next) == runs[1..]
  {
    if Next(s, d, c).0.None? {
      assert Skip(s, d, |s|, true) == |s|;
    }
  }

  lemma {:induction false} RunsBehindCursor(s: seq<Char16>, d: set<Char16>, k: nat)
    ensures var runs := RunsFrom(s, d, 0);
            RunsFrom(s, d, CursorAfter(s, d, k)) == if k <= |runs| then runs[k..] else []
  {
    hide RunsFrom, Next;
    if k > 0 {
      RunsBehindCursor(s, d, k - 1);
      OneCall(s, d, CursorAfter(s, d, k - 1));
    }
  }

  /**
   The whole run: call number k answers with the k-th maximal delimiter-free run of the text,
   and every call behind the last run answers NULL. While runs are left, the text ahead of the
   cursor gets strictly shorter.
   */
  lemma CallsEnumerateRuns(s: seq<Char16>, d: set<Char16>, k: nat)
    ensures var runs, (found, next) := RunsFrom(s, d, 0), Next(s, d, CursorAfter(s, d, k));
            found == (if k < |runs| then Some(runs[k]) else None) &&
            (found.Some? ==> CursorAfter(s, d, k) < next) &&
            (forall i: nat, j: nat :: (i, j) in runs <==> MaximalRun(s, d, i, j)) &&
            InOrder(runs)
  {
    RunsBehindCursor(s, d, k);
    OneCall(s, d, CursorAfter(s, d, k));
    RunsAreMaximal(s, d, 0);
    RunsInOrder(s, d, 0);
  }

  lemma {:induction false} RunsFit(s: seq<Char16>, d: set<Char16>, c: nat)
    requires c <= |s|
    ensures forall r | r in RunsFrom(s, d, c) :: r.0 <= r.1 <= |s|
    decreases |s| - c
  {
    var (found, next) := Next(s, d, c);
    if found.Some? {
      RunsFit(s, d, next);
    }
  }

  /** The units of the tokens from c on, in order. */
  function Joined(s: seq<Char16>, d: set<Char16>, c: nat): seq<Char16>
    requires c <= |s|
    decreases |s| - c
  {
    var (found, next) := Next(s, d, c);
    if found.None? then [] else s[found.value.0..found.value.1] + Joined(s, d, next)
  }

  function Without(s: seq<Char16>, d: set<Char16>): seq<Char16> {
    if s == [] then [] else (if s[0] in d then [] else [s[0]]) + Without(s[1..], d)
  }

  lemma {:induction false} WithoutSplits(a: seq<Char16>, b: seq<Char16>, d: set<Char16>)
    ensures Without(a + b, d) == Without(a, d) + Without(b, d)
  {
    if a == [] {
      assert a + b == b;
    } else {
      assert (a + b)[1..] == a[1..] + b;
      WithoutSplits(a[1..], b, d);
    }
  }

  lemma {:induction false} WithoutStretch(a: seq<Char16>, d: set<Char16>, over: bool)
    requires forall x | x in a :: x in d <==> over
    ensures Without(a, d) == if over then [] else a
  {
    if a != [] {
      WithoutStretch(a[1..], d, over);
    }
  }

  lemma StretchAhead(s: seq<Char16>, d: set<Char16>, i: nat, j: nat, over: bool)
    requires i <= j <= |s| && forall k | i <= k < j :: s[k] in d <==> over
    ensures Without(s[i..], d) == (if over then [] else s[i..j]) + Without(s[j..], d)
  {
    assert s[i..] == s[i..j] + s[j..];
    WithoutSplits(s[i..j], s[j..], d);
    WithoutStretch(s[i..j], d, over);
  }

  /** Nothing is lost and nothing is invented: the tokens put together are the text without its delimiters. */
  lemma {:induction false} TokensConserveText(s: seq<Char16>, d: set<Char16>, c: nat)
    requires c <= |s|
    ensures Joined(s, d, c) == Without(s[c..], d)
    decreases |s| - c
  {
    var (found, next) := Next(s, d, c);
    var i := Skip(s, d, c, true);
    StretchAhead(s, d, c, i, true);
    if found.Some? {
      StretchAhead(s, d, i, next, false);
      TokensConserveText(s, d, next);
    }
  }

  // ------------------------------------------------ the static state

  /** The pointer a call returns: NULL, the cursor itself, or the static buffer. */
  datatype Returned = NullPointer | CursorItself | StaticBuffer

  ghost function Delimiters(a: seq<Char16>): set<Char16>
    requires Terminated(a)
  {
    set x | x in Str(a)
  }

  /** The inner loop of both scans. */
  method IsDelimiter(c: Char16, delimiters: array<Char16>, num: nat) returns (found: bool)
    requires num <= delimiters.Length
    ensures found <==> c in delimiters[..num]
  {
    found := false;
    for i := 0 to num
      invariant c !in delimiters[..i]
    {
      if c == delimiters[i] {
        return true;
      }
    }
  }

  /** Both scans: from c on, over delimiters or over anything else, up to the terminator. */
  method Scan(text: array<Char16>, c: nat, delimiters: array<Char16>, num: nat, over: bool) returns (r: nat)
    requires Terminated(text[..]) && c <= |Str(text[..])|
    requires Terminated(delimiters[..]) && num == |Str(delimiters[..])|
    ensures r == Skip(Str(text[..]), Delimiters(delimiters[..]), c, over)
  {
    ghost var s, d := Str(text[..]), Delimiters(delimiters[..]);
    r := c;
    while text[r] != 0
      invariant c <= r <= |s| && Skip(s, d, r, over) == Skip(s, d, c, over)
      decreases |s| - r
    {
      var found := IsDelimiter(text[r], delimiters, num);
      assert s[r] == text[r];
      if found != over {
        break;
      }
      r := r + 1;
    }
  }

  class State {
    var text: array?<Char16>
    var lastCursor: nat
    var buffer: array?<Char16>
    var bufferSize: nat

    /** bufferSize is what was allocated, and the text is not the static buffer. */
    ghost predicate Valid()
      reads this
    {
      (text != null ==> text != buffer) && bufferSize == if buffer == null then 0 else buffer.Length
    }

    /** The cursor is at position c of the text s. */
    ghost predicate At(s: seq<Char16>, c: nat)
      reads this, text
    {
      text != null && Terminated(text[..]) && Str(text[..]) == s && lastCursor == c <= |s|
    }

    /** The buffer holds the stretch of s and its terminator. */
    ghost predicate Delivered(s: seq<Char16>, run: (nat, nat))
      requires run.0 <= run.1 <= |s|
      reads this, buffer
    {
      var n := run.1 - run.0;
      buffer != null && n < buffer.Length && buffer[..n] == s[run.0..run.1] && buffer[n] == 0
    }

    constructor ()
      ensures Valid() && text == null && buffer == null
    {
      text, lastCursor, buffer, bufferSize := null, 0, null, 0;
    }

    /** Makes the buffer big enough; it never shrinks. */
    method Reserve(tsize: nat)
      requires Valid() && 0 < tsize
      modifies this`buffer, this`bufferSize
      ensures Valid() && buffer != null && buffer.Length >= tsize
      ensures if old(bufferSize) < tsize then fresh(buffer) && bufferSize == tsize else buffer == old(buffer)
    {
      if bufferSize < tsize {
        buffer := new Char16[tsize];
        bufferSize := tsize;
      }
    }

    /** Copies the token up to endCursor and its terminator to the buffer. */
    method Deliver(endCursor: nat, ghost s: seq<Char16>, ghost c: nat)
      requires Valid() && At(s, c) && c < endCursor <= |s|
      modifies this`buffer, this`bufferSize, this`lastCursor, buffer
      ensures Valid() && At(s, endCursor)
      ensures Delivered(s, (c, endCursor))
      ensures buffer == old(buffer) || fresh(buffer)
    {
      ghost var t := text[..];
      var tsize := endCursor - lastCursor + 1;
      Reserve(tsize);
      buffer[tsize - 1] := 0;
      forall k | 0 <= k < tsize - 1 {
        buffer[k] := text[lastCursor + k];
      }
      assert text[..] == t;
      lastCursor := endCursor;
    }

    /** The two scans of a call, which has a text and delimiters. */
    method Tokenize(delimiters: array<Char16>, num: nat, ghost s: seq<Char16>, ghost c: nat, ghost d: set<Char16>)
      returns (r: Returned)
      requires Valid() && At(s, c)
      requires Terminated(delimiters[..]) && num == |Str(delimiters[..])| && d == Delimiters(delimiters[..])
      modifies this`buffer, this`bufferSize, this`lastCursor, buffer
      ensures Valid() && (buffer == old(buffer) || fresh(buffer))
      ensures var (found, next) := Next(s, d, c);
              At(s, next) &&
              if found.None? then r == NullPointer && buffer == old(buffer)
              else r == StaticBuffer && Delivered(s, found.value)
    {
      lastCursor := Scan(text, lastCursor, delimiters, num, true);
      if text[lastCursor] == 0 {
        return NullPointer;
      }
      var endCursor := Scan(text, lastCursor, delimiters, num, false);
      Deliver(endCursor, s, lastCursor);
      return StaticBuffer;
    }

    /**
     u16cstok, on a text s that the cursor is in or that the call brings along. Without
     delimiters it returns the cursor; an empty set of delimiters is outside the model.
     */
    method U16cstok(wcs: array?<Char16>, delimiters: array?<Char16>,
                    ghost s: seq<Char16>, ghost c: nat, ghost d: set<Char16>)
      returns (r: Returned)
      requires Valid()
      requires if wcs != null then Terminated(wcs[..]) && wcs != buffer && s == Str(wcs[..]) && c == 0
               else text != null ==> At(s, c)
      requires delimiters != null ==>
                 Terminated(delimiters[..]) && delimiters.Length <= SIZE_MAX && delimiters[0] != 0 &&
                 d == Delimiters(delimiters[..])
      modifies this, buffer
      ensures Valid() && text == (if wcs != null then wcs else old(text))
      ensures buffer == old(buffer) || fresh(buffer)
      ensures text == null ==> r == NullPointer
      ensures text != null && delimiters == null ==> r == CursorItself && At(s, c)
      ensures text != null && delimiters != null ==>
                var (found, next) := Next(s, d, c);
                At(s, next) &&
                if found.None? then r == NullPointer && buffer == old(buffer)
                else r == StaticBuffer && Delivered(s, found.value)
    {
      var num := U16csnlen(delimiters, SIZE_MAX);
      if wcs != null {
        text, lastCursor := wcs, 0;
      }
      if text == null {
        return NullPointer;
      }
      if num == 0 {
        return CursorItself;
      }
      r := Tokenize(delimiters, num, s, c, d);
    }
  }

  /** A text is read up to its first NUL. */
  lemma StrIs(a: seq<Char16>, n: nat)
    requires n < |a| && a[n] == 0 && 0 !in a[..n]
    ensures Terminated(a) && Str(a) == a[..n]
  {
    assert forall k | 0 <= k < n :: a[..n][k] == a[k];
    assert |Str(a)| == n;
  }

  /** What a caller copies out of the buffer. */
  method ReadToken(state: State, ghost s: seq<Char16>, ghost run: (nat, nat)) returns (token: seq<Char16>)
    requires run.0 < run.1 <= |s| && 0 !in s && state.Delivered(s, run)
    ensures token == s[run.0..run.1]
  {
    ghost var n := run.1 - run.0;
    forall k | 0 <= k < n
      ensures state.buffer[..n][k] != 0
    {
      assert s[run.0..run.1][k] == s[run.0 + k];
    }
    assert state.buffer[..][..n] == state.buffer[..n];
    StrIs(state.buffer[..], n);
    var length := U16csnlen(state.buffer, state.buffer.Length);
    token := state.buffer[..length];
  }

  function Texts(s: seq<Char16>, runs: seq<(nat, nat)>): seq<seq<Char16>>
    requires forall r | r in runs :: r.0 <= r.1 <= |s|
  {
    if runs == [] then [] else [s[runs[0].0..runs[0].1]] + Texts(s, runs[1..])
  }

  /** The first of the remaining runs is in the buffer, and the cursor is behind it. */
  ghost predicate Pending(state: State, s: seq<Char16>, d: set<Char16>, c: nat, rest: seq<(nat, nat)>)
    reads state, state.text, state.buffer
  {
    state.Valid() && state.At(s, c) && 0 !in s && rest != [] && rest[0].0 < rest[0].1 <= |s| &&
    state.Delivered(s, rest[0]) && RunsFrom(s, d, c) == rest[1..]
  }

  /** The call that brings the text along. */
  method Begin(state: State, wcs: array<Char16>, delimiters: array<Char16>, ghost s: seq<Char16>, ghost d: set<Char16>)
    returns (r: Returned, ghost next: nat)
    requires state.Valid() && wcs != state.buffer && Terminated(wcs[..]) && s == Str(wcs[..])
    requires Terminated(delimiters[..]) && d == Delimiters(delimiters[..])
    requires delimiters.Length <= SIZE_MAX && delimiters[0] != 0
    modifies state, state.buffer
    ensures state.Valid() && (state.buffer == old(state.buffer) || fresh(state.buffer))
    ensures var rest := RunsFrom(s, d, 0);
            if rest == [] then r == NullPointer else r == StaticBuffer && Pending(state, s, d, next, rest)
  {
    OneCall(s, d, 0);
    r := state.U16cstok(wcs, delimiters, s, 0, d);
    next := Next(s, d, 0).1;
  }

  /** One round of a caller's loop: copy the token, ask for the next one. */
  method Round(state: State, delimiters: array<Char16>,
               ghost s: seq<Char16>, ghost c: nat, ghost d: set<Char16>, ghost rest: seq<(nat, nat)>)
    returns (token: seq<Char16>, r: Returned, ghost next: nat)
    requires Pending(state, s, d, c, rest) && delimiters != state.buffer
    requires Terminated(delimiters[..]) && d == Delimiters(delimiters[..])
    requires delimiters.Length <= SIZE_MAX && delimiters[0] != 0
    modifies state, state.buffer
    ensures state.Valid() && (state.buffer == old(state.buffer) || fresh(state.buffer))
    ensures rest[0].0 < rest[0].1 <= |s| && token == s[rest[0].0..rest[0].1]
    ensures if rest[1..] == [] then r == NullPointer else r == StaticBuffer && Pending(state, s, d, next, rest[1..])
  {
    token := ReadToken(state, s, rest[0]);
    OneCall(s, d, c);
    r := state.U16cstok(null, delimiters, s, c, d);
    next := Next(s, d, c).1;
  }

  /** A caller's rounds until NULL comes back. */
  method Rounds(state: State, delimiters: array<Char16>,
                ghost s: seq<Char16>, ghost c: nat, ghost d: set<Char16>, ghost rest: seq<(nat, nat)>)
    returns (tokens: seq<seq<Char16>>)
    requires Pending(state, s, d, c, rest) && delimiters != state.buffer
    requires forall r | r in rest :: r.0 <= r.1 <= |s|
    requires Terminated(delimiters[..]) && d == Delimiters(delimiters[..])
    requires delimiters.Length <= SIZE_MAX && delimiters[0] != 0
    modifies state, state.buffer
    ensures state.Valid() && tokens == Texts(s, rest)
    decreases |rest|
  {
    var token, r, next := Round(state, delimiters, s, c, d, rest);
    if r == NullPointer {
      return [token];
    }
    tokens := Rounds(state, delimiters, s, next, d, rest[1..]);
    tokens := [token] + tokens;
  }

  /** A whole tokenization collects exactly the maximal runs of the text, in order. */
  method AllTokens(state: State, wcs: array<Char16>, delimiters: array<Char16>) returns (tokens: seq<seq<Char16>>)
    requires state.Valid() && wcs != state.buffer && delimiters != state.buffer
    requires Terminated(wcs[..]) && Terminated(delimiters[..])
    requires delimiters.Length <= SIZE_MAX && delimiters[0] != 0
    modifies state, state.buffer
    ensures state.Valid()
    ensures var s := old(Str(wcs[..]));
            var runs := RunsFrom(s, old(Delimiters(delimiters[..])), 0);
            (forall r | r in runs :: r.0 <= r.1 <= |s|) && tokens == Texts(s, runs)
  {
    ghost var s, d := Str(wcs[..]), Delimiters(delimiters[..]);
    RunsFit(s, d, 0);
    var r, c := Begin(state, wcs, delimiters, s, d);
    tokens := [];
    if r != NullPointer {
      tokens := Rounds(state, delimiters, s, c, d, RunsFrom(s, d, 0));
    }
  }
}
