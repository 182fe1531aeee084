/**
 parse_format reads a printf format and lists the argument types it asks for; the
 snprintf_s_* functions only format when that list is the one they expect.
 */
module FormatParser {
  import opened Wrappers
  import opened Memory

  const FMT_CHAR := 'c'
  const FMT_WCHAR := 'C'
  const FMT_SHORT := 'h'
  const FMT_INT := 'd'
  const FMT_LONG := 'l'
  const FMT_STRING := 's'
  const FMT_WSTRING := 'S'
  const FMT_DOUBLE := 'g'
  const FMT_LDOUBLE := 'G'
  const FMT_VOID := 'p'
  const FMT_PCHAR := '1'
  const FMT_PSHORT := '2'
  const FMT_PINT := '3'
  const FMT_PLONG := '4'

  const MAX_FORMAT_ELEMENTS: nat := 16

  // ------------------------------------------------ the grammar the scanner follows

  predicate IsFlag(c: char) {
    c == '#' || c == '0' || c == '-' || c == ' ' || c == '+'
  }

  predicate IsDigit(c: char) {
    '0' <= c <= '9'
  }

  /** The character at the head of s, or the terminator. */
  function Head(s: string): char {
    if s == "" then '\0' else s[0]
  }

  function SkipFlag(s: string): string {
    if s != "" && IsFlag(s[0]) then s[1..] else s
  }

  function SkipDigits(s: string): (r: string)
    ensures |r| <= |s|
  {
    if s != "" && IsDigit(s[0]) then SkipDigits(s[1..]) else s
  }

  function SkipPrecision(s: string): string {
    if s != "" && s[0] == '.' then SkipDigits(s[1..]) else s
  }

  /** The length modifier as the scanner notes it in lmod, and the text behind it. */
  function SkipLength(s: string): (string, char) {
    if s == "" then (s, ' ')
    else if s[0] == 'h' then
      if Head(s[1..]) == 'h' then (s[2..], 'H') else (s[1..], 'h')
    else if s[0] == 'l' then
      if Head(s[1..]) == 'l' then (s[2..], 'd') else (s[1..], 'l')
    else if s[0] == 'L' then (s, 'L')
    else if s[0] == 'j' || s[0] == 'z' || s[0] == 't' then (s[1..], ' ')
    else (s, ' ')
  }

  predicate IsInteger(c: char) {
    c == 'd' || c == 'i' || c == 'o' || c == 'u' || c == 'x' || c == 'X'
  }

  predicate IsFloat(c: char) {
    c == 'e' || c == 'E' || c == 'f' || c == 'F' || c == 'g' || c == 'G' || c == 'a' || c == 'A'
  }

  /** The tag recorded for conversion c, with m the noted modifier. */
  function TagOf(c: char, m: char): Option<char> {
    if c == 'c' then Some(if m == 'l' then FMT_WCHAR else FMT_CHAR)
    else if IsInteger(c) then
      Some(if m == 'H' then FMT_CHAR else if m == 'l' then FMT_LONG else if m == 'h' then FMT_SHORT else FMT_INT)
    else if IsFloat(c) then Some(if m == 'L' then FMT_LDOUBLE else FMT_DOUBLE)
    else if c == 's' then Some(if m == 'l' || m == 'L' then FMT_WSTRING else FMT_STRING)
    else if c == 'p' then Some(FMT_VOID)
    else if c == 'n' then
      Some(if m == 'H' then FMT_PCHAR else if m == 'l' then FMT_PLONG else if m == 'h' then FMT_PSHORT else FMT_PINT)
    else None
  }

  /** One directive, from behind its '%': the text left over and the tag it records. */
  function Directive(s: string): (string, Option<char>) {
    if s == "" || s[0] == '%' then (s, None)
    else
      var (t, m) := SkipLength(SkipPrecision(SkipDigits(SkipFlag(s))));
      if t == "" then (t, None)
      else if TagOf(t[0], m).Some? || t[0] == 'm' then (t[1..], TagOf(t[0], m))
      else (t, None)
  }

  function ToSeq(tag: Option<char>): seq<char> {
    if tag.Some? then [tag.value] else []
  }

  /** All tags of a format, in order. */
  function Scan(s: string): seq<char>
    decreases |s|
  {
    if s == "" then []
    else if s[0] != '%' then Scan(s[1..])
    else
      var (rest, tag) := Directive(s[1..]);
      DirectiveTakesNoPercent(s[1..]);
      PastShorter(s[1..], rest);
      ToSeq(tag) + Scan(rest)
  }

  /** r is what is left of s after some characters other than '%'. */
  ghost predicate Past(s: string, r: string) {
    s == r || (s != "" && s[0] != '%' && Past(s[1..], r))
  }

  lemma {:induction false} PastTrans(s: string, t: string, r: string)
    requires Past(s, t) && Past(t, r)
    ensures Past(s, r)
  {
    if s != t {
      PastTrans(s[1..], t, r);
    }
  }

  lemma {:induction false} PastShorter(s: string, r: string)
    requires Past(s, r)
    ensures |r| <= |s|
  {
    if s != r {
      PastShorter(s[1..], r);
    }
  }

  lemma PastStep(s: string)
    requires s != "" && s[0] != '%'
    ensures Past(s, s[1..])
  {
  }

  lemma {:induction false} DigitsPast(s: string)
    ensures Past(s, SkipDigits(s))
  {
    if s != "" && IsDigit(s[0]) {
      DigitsPast(s[1..]);
    }
  }

  lemma PrecisionPast(s: string)
    ensures Past(s, SkipPrecision(s))
  {
    if s != "" && s[0] == '.' {
      DigitsPast(s[1..]);
    }
  }

  lemma LengthPast(s: string)
    ensures Past(s, SkipLength(s).0)
  {
    var r := SkipLength(s).0;
    if r == s {
    } else {
      PastStep(s);
      if r != s[1..] {
        assert r == s[1..][1..];
        PastStep(s[1..]);
        PastTrans(s, s[1..], r);
      }
    }
  }

  /** A directive never swallows a '%', so every '%' of a format is looked at. */
  lemma DirectiveTakesNoPercent(s: string)
    ensures Past(s, Directive(s).0)
  {
    if s != "" && s[0] != '%' {
      var a := SkipFlag(s);
      var b := SkipDigits(a);
      var c := SkipPrecision(b);
      var d := SkipLength(c).0;
      DigitsPast(a);
      PrecisionPast(b);
      LengthPast(c);
      PastTrans(a, b, c);
      PastTrans(a, c, d);
      PastTrans(s, a, d);
      if d != "" && d[0] != '%' {
        PastTrans(s, d, d[1..]);
      }
    }
  }

  lemma {:induction false} ScanPast(s: string, r: string)
    requires Past(s, r)
    ensures Scan(s) == Scan(r)
  {
    if s != r {
      ScanPast(s[1..], r);
    }
  }

  /** Every '%' contributes the tag of the text behind it, and that text is scanned again in full. */
  lemma ScanPercent(s: string)
    ensures Scan(['%'] + s) == ToSeq(Directive(s).1) + Scan(s)
  {
    var t := ['%'] + s;
    assert t[1..] == s;
    DirectiveTakesNoPercent(s);
    ScanPast(s, Directive(s).0);
  }

  // ------------------------------------------------ the scanner

  predicate CString(f: seq<char>) {
    |f| > 0 && f[|f| - 1] == '\0' && forall i | 0 <= i < |f| - 1 :: f[i] != '\0'
  }

  /** The text from index i up to the terminator. */
  function From(f: seq<char>, i: nat): string
    requires CString(f) && i < |f|
  {
    f[i..|f| - 1]
  }

  lemma FromStep(f: seq<char>, i: nat)
    requires CString(f) && i < |f|
    ensures f[i] == Head(From(f, i)) && (f[i] == '\0' <==> From(f, i) == "")
    ensures f[i] != '\0' ==> i + 1 < |f| && From(f, i)[1..] == From(f, i + 1)
  {
  }

  method SkipDigitsAt(format: seq<char>, start: nat) returns (index: nat)
    requires CString(format) && start < |format|
    ensures start <= index < |format|
    ensures From(format, index) == SkipDigits(From(format, start))
  {
    index := start;
    FromStep(format, index);
    while format[index] != '\0' && IsDigit(format[index])
      invariant start <= index < |format|
      invariant SkipDigits(From(format, index)) == SkipDigits(From(format, start))
      decreases |format| - index
    {
      FromStep(format, index);
      index := index + 1;
    }
    FromStep(format, index);
  }

  method PrecisionAt(format: seq<char>, start: nat) returns (index: nat)
    requires CString(format) && start < |format|
    ensures start <= index < |format|
    ensures From(format, index) == SkipPrecision(From(format, start))
  {
    index := start;
    FromStep(format, index);
    if format[index] == '.' {
      index := SkipDigitsAt(format, index + 1);
    }
  }

  /** The switch on the length modifier. */
  method LengthAt(format: seq<char>, start: nat) returns (index: nat, lmod: char)
    requires CString(format) && start < |format|
    ensures start <= index < |format|
    ensures (From(format, index), lmod) == SkipLength(From(format, start))
  {
    index, lmod := start, ' ';
    FromStep(format, index);
    var c := format[index];
    if c == 'h' || c == 'l' {
      index := index + 1;
      FromStep(format, index);
      if format[index] == c {
        index := index + 1;
        lmod := if c == 'h' then 'H' else 'd';
        assert From(format, index) == From(format, start)[2..];
      } else {
        lmod := c;
      }
    } else if c == 'L' {
      lmod := 'L';
    } else if c == 'j' || c == 'z' || c == 't' {
      index := index + 1;
    }
  }

  lemma NoTagAtTerminator(m: char)
    ensures TagOf('\0', m).None?
  {
  }

  /** The part of the loop body that starts at a '%'. */
  method DirectiveAt(format: seq<char>, start: nat) returns (index: nat, tag: Option<char>)
    requires CString(format) && start < |format| && format[start] == '%'
    ensures start < index < |format|
    ensures (From(format, index), tag) == Directive(From(format, start + 1))
  {
    hide From, SkipDigits, SkipPrecision, SkipLength, TagOf;
    FromStep(format, start);
    index := start + 1;
    FromStep(format, index);
    if format[index] == '\0' || format[index] == '%' {
      return index, None;
    }
    ghost var s := From(format, index);
    if IsFlag(format[index]) {
      index := index + 1;
    }
    assert From(format, index) == SkipFlag(s);
    index := SkipDigitsAt(format, index);
    index := PrecisionAt(format, index);
    var lmod;
    index, lmod := LengthAt(format, index);
    FromStep(format, index);
    NoTagAtTerminator(lmod);
    tag := TagOf(format[index], lmod);
    if tag.Some? || format[index] == 'm' {
      index := index + 1;
    }
  }

  /** What one round of the scanner's loop does to the tags that are still to come. */
  lemma ScanAt(f: seq<char>, i: nat)
    requires CString(f) && i < |f|
    ensures f[i] == '\0' ==> Scan(From(f, i)) == []
    ensures f[i] != '\0' ==> i + 1 < |f|
    ensures f[i] != '\0' && f[i] != '%' ==> Scan(From(f, i)) == Scan(From(f, i + 1))
    ensures f[i] == '%' ==>
              var (rest, tag) := Directive(From(f, i + 1)); Scan(From(f, i)) == ToSeq(tag) + Scan(rest)
  {
    FromStep(f, i);
  }

  /**
   parse_format. Every read is at an index of the C string, so nothing behind the terminator
   is looked at; the list receives the first maxFormats tags and nothing else of it changes.
   */
  method ParseFormat(format: seq<char>, list: array<char>, maxFormats: nat) returns (numFormats: nat)
    requires CString(format) && |format| <= UINT32_LIMIT
    requires maxFormats <= list.Length
    modifies list
    ensures var tags := Scan(From(format, 0));
            numFormats == (if |tags| < maxFormats then |tags| else maxFormats) &&
            list[..numFormats] == tags[..numFormats]
    ensures list[numFormats..] == old(list[numFormats..])
  {
    hide Scan, Directive, From;
    ghost var tags := Scan(From(format, 0));
    var index := 0;
    numFormats := 0;
    while index < RSIZE_MAX_STR && format[index] != '\0' && numFormats < maxFormats
      invariant index < |format| && numFormats <= maxFormats
      invariant tags == list[..numFormats] + Scan(From(format, index))
      invariant forall k | numFormats <= k < list.Length :: list[k] == old(list[k])
      decreases |format| - index
    {
      ScanAt(format, index);
      if format[index] == '%' {
        var tag;
        index, tag := DirectiveAt(format, index);
        if tag.Some? {
          ghost var before := list[..numFormats];
          list[numFormats] := tag.value;
          numFormats := numFormats + 1;
          assert list[..numFormats] == before + [tag.value];
        }
      } else {
        index := index + 1;
      }
    }
    ScanAt(format, index);
  }

  // ------------------------------------------------ snprintf_s_i, _l, _si and _sl

  /** check_integer_format, with the case labels of its switch. */
  predicate CheckIntegerFormat(format: char) {
    format == FMT_CHAR || format == FMT_SHORT || format == FMT_INT
  }

  datatype Gate = Rejected(code: int) | Formats

  /** The argument list of the call: a string first for _si and _sl, then a long or an int. */
  predicate Demanded(tags: seq<char>, withString: bool, long: bool) {
    |tags| == (if withString then 2 else 1) &&
    (withString ==> tags[0] == FMT_STRING) &&
    if long then tags[|tags| - 1] == FMT_LONG else CheckIntegerFormat(tags[|tags| - 1])
  }

  /** The four functions up to their call of snprintf, which is not modelled. */
  method SnprintfGate(dest: array<char>, format: seq<char>, withString: bool, long: bool) returns (r: Gate)
    requires dest.Length > 0
    requires CString(format) && |format| <= UINT32_LIMIT
    modifies dest
    ensures r.Formats? <==> Demanded(Scan(From(format, 0)), withString, long)
    ensures var wanted := if withString then 2 else 1;
            r.Rejected? ==> r.code == -(if |Scan(From(format, 0))| != wanted then ESBADFMT else ESFMTTYP)
    ensures dest[..] == if r.Formats? then old(dest[..]) else old(dest[..])[0 := '\0']
  {
    ghost var tags := Scan(From(format, 0));
    var list := new char[MAX_FORMAT_ELEMENTS];
    var nfo := ParseFormat(format, list, MAX_FORMAT_ELEMENTS);
    var index := 0;
    if nfo != (if withString then 2 else 1) {
      dest[0] := '\0';
      return Rejected(-ESBADFMT);
    }
    assert tags == list[..nfo];
    if withString {
      if list[index] != FMT_STRING {
        dest[0] := '\0';
        return Rejected(-ESFMTTYP);
      }
      index := index + 1;
    }
    assert list[index] == tags[|tags| - 1];
    if !(if long then list[index] == FMT_LONG else CheckIntegerFormat(list[index])) {
      dest[0] := '\0';
      return Rejected(-ESFMTTYP);
    }
    return Formats;
  }
}
