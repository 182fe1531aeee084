/**
 The directive grammar of C11 section 7.21.6.1, a printer for it, which directives the
 scanner recognises, and the theorem that on those scanning undoes printing.
 */
module FormatGrammar {
  import opened Wrappers
  import opened Memory
  import opened FormatParser

  datatype LengthMod = NoLength | H | HH | L | LL | J | Z | T | LongDouble

  /** A width or a precision; a star takes it from an int argument. */
  datatype Amount = Number(digits: string) | Star

  datatype Piece =
    | Literal(text: string)
    | Percent
    | Conversion(flags: string, width: Amount, precision: Option<Amount>, length: LengthMod, conv: char)

  // The character classes of the grammar, apart from those of the scanner.

  predicate DigitCharacter(c: char) {
    c in {'0', '1', '2', '3', '4', '5', '6', '7', '8', '9'}
  }

  predicate FlagCharacter(c: char) {
    c in {'-', '+', ' ', '#', '0'}
  }

  predicate Digits(s: string) {
    forall c | c in s :: DigitCharacter(c)
  }

  /** The conversions of C11, and m, which takes no argument. */
  predicate Supported(c: char) {
    IntegerConversion(c) || FloatConversion(c) || c in {'c', 's', 'p', 'n', 'm'}
  }

  predicate IntegerConversion(c: char) {
    c in {'d', 'i', 'o', 'u', 'x', 'X'}
  }

  predicate FloatConversion(c: char) {
    c in {'f', 'F', 'e', 'E', 'g', 'G', 'a', 'A'}
  }

  predicate Flags(s: string) {
    forall c | c in s :: FlagCharacter(c)
  }

  predicate ValidAmount(a: Amount) {
    a.Number? ==> Digits(a.digits)
  }

  predicate Valid(p: Piece) {
    match p
    case Literal(text) => '%' !in text
    case Percent => true
    case Conversion(flags, width, precision, length, conv) =>
      Flags(flags) && ValidAmount(width) && (precision.Some? ==> ValidAmount(precision.value)) &&
      Supported(conv) && (length.LongDouble? ==> FloatConversion(conv))
  }

  /** Every flag behind the first is a 0, which the scanner takes for a digit of the width. */
  predicate OneFlag(flags: string) {
    flags != "" ==> forall c | c in flags[1..] :: c == '0'
  }

  /** What the scanner recognises: one flag, a width and a precision in digits, and no L. */
  predicate Recognised(p: Piece) {
    p.Conversion? && OneFlag(p.flags) && p.width.Number? && (p.precision.Some? ==> p.precision.value.Number?) &&
    !p.length.LongDouble?
  }

  function RenderLength(m: LengthMod): string {
    match m
    case NoLength => "" case H => "h" case HH => "hh" case L => "l" case LL => "ll"
    case J => "j" case Z => "z" case T => "t" case LongDouble => "L"
  }

  function RenderAmount(a: Amount): string {
    match a case Number(digits) => digits case Star => "*"
  }

  function RenderPrecision(p: Option<Amount>): string {
    if p.Some? then "." + RenderAmount(p.value) else ""
  }

  /** A conversion behind its '%', followed by rest. */
  function RenderBehind(p: Piece, rest: string): string
    requires p.Conversion?
  {
    p.flags +
    (RenderAmount(p.width) + (RenderPrecision(p.precision) + (RenderLength(p.length) + ([p.conv] + rest))))
  }

  function RenderPiece(p: Piece, rest: string): string {
    match p
    case Literal(text) => text + rest
    case Percent => ['%'] + (['%'] + rest)
    case Conversion(_, _, _, _, _) => ['%'] + RenderBehind(p, rest)
  }

  function Render(ps: seq<Piece>): string {
    if ps == [] then "" else RenderPiece(ps[0], Render(ps[1..]))
  }

  /** The type of the argument that a piece converts, as the library names it. */
  function ArgumentTag(p: Piece): Option<char> {
    if !p.Conversion? || p.conv == 'm' then None
    else Some(
      if p.conv == 'c' then (if p.length.L? then FMT_WCHAR else FMT_CHAR)
      else if p.conv == 's' then (if p.length.L? then FMT_WSTRING else FMT_STRING)
      else if p.conv == 'p' then FMT_VOID
      else if p.conv == 'n' then
        (match p.length case HH => FMT_PCHAR case H => FMT_PSHORT case L => FMT_PLONG case _ => FMT_PINT)
      else if FloatConversion(p.conv) then (if p.length.LongDouble? then FMT_LDOUBLE else FMT_DOUBLE)
      else (match p.length case HH => FMT_CHAR case H => FMT_SHORT case L => FMT_LONG case _ => FMT_INT))
  }

  function StarTag(a: Amount): seq<char> {
    if a.Star? then [FMT_INT] else []
  }

  /** All arguments a piece takes off the call: an int for every star, and what it converts. */
  function Arguments(p: Piece): seq<char> {
    (if p.Conversion? then StarTag(p.width) + (if p.precision.Some? then StarTag(p.precision.value) else []) else []) +
    ToSeq(ArgumentTag(p))
  }

  function ArgumentTags(ps: seq<Piece>): seq<char> {
    if ps == [] then [] else Arguments(ps[0]) + ArgumentTags(ps[1..])
  }

  // ------------------------------------------------ what the scanner skips

  lemma {:induction false} SkipDigitsOver(w: string, r: string)
    requires Digits(w) && !IsDigit(Head(r))
    ensures SkipDigits(w + r) == r
  {
    if w == "" {
      assert w + r == r;
    } else {
      assert w[0] in w;
      assert (w + r)[1..] == w[1..] + r;
      SkipDigitsOver(w[1..], r);
    }
  }

  lemma SkipLengthOver(m: LengthMod, c: char, r: string)
    requires Supported(c) && !m.LongDouble?
    ensures var (t, lmod) := SkipLength(RenderLength(m) + ([c] + r));
            t == [c] + r && lmod != 'L' &&
            (lmod == 'l' <==> m.L?) && (lmod == 'h' <==> m.H?) && (lmod == 'H' <==> m.HH?)
  {
    var s := RenderLength(m) + ([c] + r);
    if m.NoLength? {
      assert s == [c] + r;
    } else if m.HH? || m.LL? {
      assert s[1..][0] == s[0] && s[2..] == [c] + r;
    } else {
      assert s[1..] == [c] + r;
    }
  }

  lemma SkipFlagAndWidth(flags: string, w: string, t: string)
    requires Flags(flags) && OneFlag(flags) && Digits(w) && t != "" && !IsDigit(t[0]) && !IsFlag(t[0])
    ensures SkipDigits(SkipFlag(flags + (w + t))) == t
  {
    if flags == "" {
      assert flags + (w + t) == w + t;
      SkipWidthWithoutFlag(w, t);
    } else {
      assert flags[0] in flags;
      assert (flags + (w + t))[1..] == (flags[1..] + w) + t;
      SkipDigitsOver(flags[1..] + w, t);
    }
  }

  /** A width that starts with 0 loses that digit to the flag switch, which does not matter. */
  lemma SkipWidthWithoutFlag(w: string, t: string)
    requires Digits(w) && t != "" && !IsDigit(t[0]) && !IsFlag(t[0])
    ensures SkipDigits(SkipFlag(w + t)) == t
  {
    SkipDigitsOver(w, t);
    if w == "" {
      assert w + t == t;
    } else if IsFlag(w[0]) {
      assert (w + t)[1..] == w[1..] + t;
      SkipDigitsOver(w[1..], t);
    }
  }

  lemma SkipPrecisionOver(p: Option<Amount>, t: string)
    requires p.Some? ==> p.value.Number? && ValidAmount(p.value)
    requires t != "" && !IsDigit(t[0]) && t[0] != '.'
    ensures SkipPrecision(RenderPrecision(p) + t) == t
  {
    if p.Some? {
      assert (RenderPrecision(p) + t)[1..] == p.value.digits + t;
      SkipDigitsOver(p.value.digits, t);
    } else {
      assert "" + t == t;
    }
  }

  lemma RenderedStart(p: Piece, rest: string)
    requires p.Conversion? && Valid(p)
    ensures var t := RenderLength(p.length) + ([p.conv] + rest);
            t != "" && !IsDigit(t[0]) && !IsFlag(t[0]) && t[0] != '.'
    ensures var s := RenderBehind(p, rest); s != "" && s[0] != '%'
  {
    var t := RenderLength(p.length) + ([p.conv] + rest);
    assert t[0] == if p.length.NoLength? then p.conv else RenderLength(p.length)[0];
    var u := RenderPrecision(p.precision) + t;
    assert u[0] == if p.precision.Some? then '.' else t[0];
    var v := RenderAmount(p.width) + u;
    assert v[0] == if RenderAmount(p.width) != "" then RenderAmount(p.width)[0] else u[0];
    assert RenderBehind(p, rest) == p.flags + v;
    assert p.flags != "" ==> p.flags[0] in p.flags;
    assert p.width.Number? && p.width.digits != "" ==> p.width.digits[0] in p.width.digits;
  }

  /** The text behind flags, width and precision is where the scanner looks for the modifier. */
  lemma ReachesLength(p: Piece, rest: string)
    requires Valid(p) && p.Conversion? && OneFlag(p.flags) && p.width.Number?
    requires p.precision.Some? ==> p.precision.value.Number?
    ensures SkipPrecision(SkipDigits(SkipFlag(RenderBehind(p, rest)))) == RenderLength(p.length) + ([p.conv] + rest)
  {
    hide SkipFlag, SkipDigits, SkipPrecision;
    RenderedStart(p, rest);
    var t := RenderLength(p.length) + ([p.conv] + rest);
    SkipPrecisionOver(p.precision, t);
    var u := RenderPrecision(p.precision) + t;
    assert u[0] == if p.precision.Some? then '.' else t[0];
    SkipFlagAndWidth(p.flags, p.width.digits, u);
  }

  /** One directive: the scanner takes exactly the printed conversion and records its tag. */
  lemma DirectiveUndoesPrinting(p: Piece, rest: string)
    requires Valid(p) && Recognised(p)
    ensures Directive(RenderBehind(p, rest)) == (rest, ArgumentTag(p))
  {
    hide SkipFlag, SkipDigits, SkipPrecision, SkipLength, RenderBehind;
    RenderedStart(p, rest);
    ReachesLength(p, rest);
    SkipLengthOver(p.length, p.conv, rest);
    assert ([p.conv] + rest)[1..] == rest;
  }

  // ------------------------------------------------ what the scanner misses

  /** A character at which the scanner gives a directive up. */
  predicate GivesUpAt(s: string) {
    s != "" && (s[0] == '*' || (IsFlag(s[0]) && s[0] != '0'))
  }

  lemma GivesUp(s: string)
    requires GivesUpAt(s)
    ensures SkipPrecision(s) == s && SkipLength(s) == (s, ' ') && TagOf(s[0], ' ').None? && s[0] != 'm'
  {
  }

  lemma {:induction false} ZerosThenFlag(flags: string, u: string)
    requires Flags(flags) && exists c :: c in flags && c != '0'
    ensures GivesUpAt(SkipDigits(flags + u))
  {
    assert flags[0] in flags;
    if flags[0] == '0' {
      assert (flags + u)[1..] == flags[1..] + u;
      var c :| c in flags && c != '0';
      assert c in flags[1..];
      ZerosThenFlag(flags[1..], u);
    }
  }

  /** A second flag other than 0 makes the scanner record nothing. */
  lemma SecondFlagMissed(p: Piece, rest: string)
    requires p.Conversion? && Valid(p) && !OneFlag(p.flags)
    ensures Directive(RenderBehind(p, rest)).1 == None
  {
    hide SkipDigits, SkipPrecision, SkipLength, TagOf;
    RenderedStart(p, rest);
    var u := RenderAmount(p.width) + (RenderPrecision(p.precision) + (RenderLength(p.length) + ([p.conv] + rest)));
    assert p.flags[0] in p.flags;
    assert (p.flags + u)[1..] == p.flags[1..] + u;
    ZerosThenFlag(p.flags[1..], u);
    GivesUp(SkipDigits(p.flags[1..] + u));
  }

  /** A star for the width makes the scanner record nothing. */
  lemma StarWidthMissed(p: Piece, rest: string)
    requires p.Conversion? && Valid(p) && OneFlag(p.flags) && p.width.Star?
    ensures Directive(RenderBehind(p, rest)).1 == None
  {
    hide SkipFlag, SkipDigits, SkipPrecision, SkipLength, TagOf, RenderPrecision, RenderLength;
    RenderedStart(p, rest);
    var t := "*" + (RenderPrecision(p.precision) + (RenderLength(p.length) + ([p.conv] + rest)));
    assert p.flags + ("" + t) == RenderBehind(p, rest);
    SkipFlagAndWidth(p.flags, "", t);
    GivesUp(t);
  }

  /** A star for the precision makes the scanner record nothing. */
  lemma StarPrecisionMissed(p: Piece, rest: string)
    requires p.Conversion? && Valid(p) && OneFlag(p.flags) && p.width.Number? && p.precision == Some(Star)
    ensures Directive(RenderBehind(p, rest)).1 == None
  {
    RenderedStart(p, rest);
    var t := "*" + (RenderLength(p.length) + ([p.conv] + rest));
    var u := ['.'] + t;
    assert RenderPrecision(p.precision) + (RenderLength(p.length) + ([p.conv] + rest)) == u;
    SkipFlagAndWidth(p.flags, p.width.digits, u);
    StarBehindPoint(u, t);
  }

  lemma StarBehindPoint(u: string, t: string)
    requires GivesUpAt(t) && t[0] == '*' && u == ['.'] + t
    ensures SkipPrecision(u) == t && SkipLength(t) == (t, ' ') && TagOf(t[0], ' ').None? && t[0] != 'm'
  {
    assert u[1..] == t;
    GivesUp(t);
  }

  /** The scanner stops in front of an L and records nothing. */
  lemma LongDoubleMissed(p: Piece, rest: string)
    requires p.Conversion? && Valid(p) && OneFlag(p.flags) && p.width.Number? && p.length.LongDouble?
    requires p.precision.Some? ==> p.precision.value.Number?
    ensures Directive(RenderBehind(p, rest)).1 == None
  {
    hide SkipFlag, SkipDigits, SkipPrecision;
    RenderedStart(p, rest);
    ReachesLength(p, rest);
  }

  /** A directive is recorded exactly when it is recognised. */
  lemma NotRecognisedIsMissed(p: Piece, rest: string)
    requires p.Conversion? && Valid(p) && !Recognised(p)
    ensures Directive(RenderBehind(p, rest)).1 == None
  {
    hide Directive, RenderBehind;
    if !OneFlag(p.flags) {
      SecondFlagMissed(p, rest);
    } else if p.width.Star? {
      StarWidthMissed(p, rest);
    } else if p.precision == Some(Star) {
      StarPrecisionMissed(p, rest);
    } else {
      LongDoubleMissed(p, rest);
    }
  }

  // ------------------------------------------------ what reads like a directive

  /** The text begins like the rest of a directive, behind its '%', that takes an argument. */
  ghost predicate ReadsLikeDirective(s: string) {
    exists p, tail :: TakesArgument(p) && s == RenderBehind(p, tail)
  }

  predicate TakesArgument(p: Piece) {
    Valid(p) && Recognised(p) && p.conv != 'm'
  }

  /** The digits at the head of a text, and the rest. */
  lemma {:induction false} DigitsSplit(s: string) returns (w: string)
    ensures Digits(w) && s == w + SkipDigits(s)
  {
    w := "";
    if s != "" && IsDigit(s[0]) {
      var v := DigitsSplit(s[1..]);
      w := [s[0]] + v;
      assert s == [s[0]] + s[1..];
    }
  }

  lemma FlagSplit(s: string) returns (flags: string)
    ensures Flags(flags) && OneFlag(flags) && s == flags + SkipFlag(s)
  {
    if s != "" && IsFlag(s[0]) {
      flags := [s[0]];
      assert s == [s[0]] + s[1..];
    } else {
      flags := "";
      assert s == "" + s;
    }
  }

  lemma PrecisionSplit(s: string) returns (precision: Option<Amount>)
    ensures precision.Some? ==> precision.value.Number? && ValidAmount(precision.value)
    ensures s == RenderPrecision(precision) + SkipPrecision(s)
  {
    hide SkipDigits;
    if s != "" && s[0] == '.' {
      var w := DigitsSplit(s[1..]);
      precision := Some(Number(w));
      assert s == ['.'] + s[1..];
    } else {
      precision := None;
      assert s == "" + s;
    }
  }

  lemma LengthSplit(s: string) returns (m: LengthMod)
    requires SkipLength(s).1 != 'L'
    ensures !m.LongDouble? && s == RenderLength(m) + SkipLength(s).0
  {
    if s == "" {
      m := NoLength;
      assert s == "" + s;
    } else if s[0] == 'h' || s[0] == 'l' {
      if Head(s[1..]) == s[0] {
        m := if s[0] == 'h' then HH else LL;
        assert s == RenderLength(m) + s[2..];
      } else {
        m := if s[0] == 'h' then H else L;
        assert s == RenderLength(m) + s[1..];
      }
    } else if s[0] == 'j' || s[0] == 'z' || s[0] == 't' {
      m := if s[0] == 'j' then J else if s[0] == 'z' then Z else T;
      assert s == RenderLength(m) + s[1..];
    } else {
      m := NoLength;
      assert s == "" + s;
    }
  }

  /** A conversion with a tag is a supported one and had no L in front of it. */
  lemma TaggedConversion(s: string)
    ensures var (t, m) := SkipLength(s);
            t != "" && TagOf(t[0], m).Some? ==> m != 'L' && Supported(t[0]) && t[0] != 'm'
  {
  }

  /** A recorded tag comes from a text that a directive was printed to. */
  lemma RecordedIsPrinted(s: string)
    requires Directive(s).1.Some?
    ensures ReadsLikeDirective(s)
  {
    hide TagOf, SkipFlag, SkipDigits, SkipPrecision, SkipLength;
    var a := SkipFlag(s);
    var b := SkipDigits(a);
    var c := SkipPrecision(b);
    var (t, m) := SkipLength(c);
    TaggedConversion(c);
    var flags := FlagSplit(s);
    var width := DigitsSplit(a);
    var precision := PrecisionSplit(b);
    var length := LengthSplit(c);
    var p := Conversion(flags, Number(width), precision, length, t[0]);
    assert t == [t[0]] + t[1..];
    assert s == RenderBehind(p, t[1..]);
    assert TakesArgument(p);
  }

  /** The scanner records a tag for a text exactly when the text reads like the rest of a directive. */
  lemma RecordsExactlyDirectives(s: string)
    ensures Directive(s).1.Some? <==> ReadsLikeDirective(s)
  {
    if Directive(s).1.Some? {
      RecordedIsPrinted(s);
    } else if ReadsLikeDirective(s) {
      var p, tail :| TakesArgument(p) && s == RenderBehind(p, tail);
      DirectiveUndoesPrinting(p, tail);
    }
  }

  /**
   What must hold of a printed list: every directive that takes an argument is recognised, and
   behind every %% comes a text that does not read like the rest of a directive (the scanner
   takes the second % for a new start).
   */
  ghost predicate Plain(ps: seq<Piece>) {
    ps == [] ||
    ((ps[0].Conversion? ==> Recognised(ps[0]) || Arguments(ps[0]) == []) &&
     (ps[0].Percent? ==> !ReadsLikeDirective(Render(ps[1..]))) &&
     Plain(ps[1..]))
  }

  predicate AllValid(ps: seq<Piece>) {
    forall p | p in ps :: Valid(p)
  }

  lemma {:induction false} LiteralSkipped(text: string, rest: string)
    requires '%' !in text
    ensures Past(text + rest, rest)
  {
    if text == "" {
      assert text + rest == rest;
    } else {
      assert (text + rest)[1..] == text[1..] + rest;
      LiteralSkipped(text[1..], rest);
    }
  }

  /** What the scanner records for one printed piece in front of rest. */
  function Recorded(p: Piece, rest: string): seq<char> {
    if p.Percent? then ToSeq(Directive(rest).1) else if Recognised(p) then ToSeq(ArgumentTag(p)) else []
  }

  lemma ScanPiece(p: Piece, rest: string)
    requires Valid(p)
    ensures Scan(RenderPiece(p, rest)) == Recorded(p, rest) + Scan(rest)
  {
    match p
    case Literal(text) =>
      LiteralSkipped(text, rest);
      ScanPast(text + rest, rest);
    case Percent =>
      ScanDoublePercent(rest);
    case Conversion(_, _, _, _, _) =>
      ScanConversion(p, rest);
  }

  lemma ScanDoublePercent(rest: string)
    ensures Scan(['%'] + (['%'] + rest)) == ToSeq(Directive(rest).1) + Scan(rest)
  {
    ScanPercent(['%'] + rest);
    ScanPercent(rest);
  }

  lemma ScanConversion(p: Piece, rest: string)
    requires p.Conversion? && Valid(p)
    ensures Scan(['%'] + RenderBehind(p, rest)) == (if Recognised(p) then ToSeq(ArgumentTag(p)) else []) + Scan(rest)
  {
    hide RenderBehind, Directive, Scan, Past;
    var s := RenderBehind(p, rest);
    ScanPercent(s);
    BehindIsPast(p, rest);
    ScanPast(s, rest);
    if Recognised(p) {
      DirectiveUndoesPrinting(p, rest);
    } else {
      NotRecognisedIsMissed(p, rest);
    }
  }

  lemma NoPercentInside(p: Piece)
    requires p.Conversion? && Valid(p)
    ensures '%' !in p.flags && '%' !in RenderAmount(p.width) && '%' !in RenderPrecision(p.precision)
    ensures '%' !in RenderLength(p.length) && p.conv != '%'
  {
  }

  lemma BehindIsPast(p: Piece, rest: string)
    requires p.Conversion? && Valid(p)
    ensures Past(RenderBehind(p, rest), rest)
  {
    hide Past, RenderPrecision, RenderLength;
    NoPercentInside(p);
    var text := p.flags + RenderAmount(p.width) + RenderPrecision(p.precision) + RenderLength(p.length) + [p.conv];
    assert RenderBehind(p, rest) == text + rest;
    LiteralSkipped(text, rest);
  }

  /** The tag of the directive that a text reads like, in terms of the grammar. */
  ghost function TagBehind(s: string): seq<char> {
    if ReadsLikeDirective(s)
    then var p, tail :| TakesArgument(p) && s == RenderBehind(p, tail); ToSeq(ArgumentTag(p))
    else []
  }

  /** The tags of the recognised directives and of those that a %% makes up, in order. */
  ghost function RecordedTags(ps: seq<Piece>): seq<char> {
    if ps == [] then []
    else
      (if ps[0].Percent? then TagBehind(Render(ps[1..]))
       else if Recognised(ps[0]) then ToSeq(ArgumentTag(ps[0]))
       else []) + RecordedTags(ps[1..])
  }

  lemma TagBehindIsRecorded(s: string)
    ensures ToSeq(Directive(s).1) == TagBehind(s)
  {
    hide Directive, RenderBehind;
    RecordsExactlyDirectives(s);
    if ReadsLikeDirective(s) {
      var p, tail :| TakesArgument(p) && s == RenderBehind(p, tail) && TagBehind(s) == ToSeq(ArgumentTag(p));
      DirectiveUndoesPrinting(p, tail);
    }
  }

  /** What the scanner yields on every format the grammar can print. */
  lemma {:induction false} ScanOfPrinted(ps: seq<Piece>)
    requires AllValid(ps)
    ensures Scan(Render(ps)) == RecordedTags(ps)
  {
    hide Scan, Directive, RenderPiece, Recognised, TagBehind, Valid;
    if ps != [] {
      TagBehindIsRecorded(Render(ps[1..]));
      ScanPiece(ps[0], Render(ps[1..]));
      ScanOfPrinted(ps[1..]);
    } else {
      ScanNothing();
    }
  }

  lemma PlainIsRecorded(p: Piece, rest: string)
    requires Valid(p) && (p.Conversion? ==> Recognised(p) || Arguments(p) == [])
    requires p.Percent? ==> !ReadsLikeDirective(rest)
    ensures Recorded(p, rest) == Arguments(p)
  {
    hide Directive, ReadsLikeDirective;
    RecordsExactlyDirectives(rest);
  }

  /** Parser after printer, on every plain list. */
  lemma {:induction false} ScanUndoesRender(ps: seq<Piece>)
    requires AllValid(ps) && Plain(ps)
    ensures Scan(Render(ps)) == ArgumentTags(ps)
  {
    hide Scan, Recorded, RenderPiece, Recognised, Arguments, ReadsLikeDirective, Valid;
    if ps != [] {
      PlainIsRecorded(ps[0], Render(ps[1..]));
      ScanPiece(ps[0], Render(ps[1..]));
      ScanUndoesRender(ps[1..]);
    } else {
      ScanNothing();
    }
  }

  // ------------------------------------------------ how far the count can be off

  /** The arguments the scanner misses: those of the directives it does not recognise. */
  function Missed(ps: seq<Piece>): nat {
    if ps == [] then 0
    else (if ps[0].Conversion? && !Recognised(ps[0]) then |Arguments(ps[0])| else 0) + Missed(ps[1..])
  }

  /** The arguments it invents: one behind every %% whose text reads on like a directive. */
  ghost function Invented(ps: seq<Piece>): nat {
    if ps == [] then 0
    else (if ps[0].Percent? && ReadsLikeDirective(Render(ps[1..])) then 1 else 0) + Invented(ps[1..])
  }

  lemma RecordedCount(p: Piece, rest: string)
    requires Valid(p)
    ensures |Recorded(p, rest)| + (if p.Conversion? && !Recognised(p) then |Arguments(p)| else 0) ==
            |Arguments(p)| + if p.Percent? && ReadsLikeDirective(rest) then 1 else 0
  {
    hide Directive, ReadsLikeDirective;
    RecordsExactlyDirectives(rest);
  }

  /** The count is off by exactly what is invented and what is missed. */
  lemma {:induction false} ArgumentBalance(ps: seq<Piece>)
    requires AllValid(ps)
    ensures |Scan(Render(ps))| + Missed(ps) == |ArgumentTags(ps)| + Invented(ps)
  {
    hide Scan, Recorded, RenderPiece, Recognised, Arguments, ReadsLikeDirective, Valid;
    if ps != [] {
      ScanPiece(ps[0], Render(ps[1..]));
      RecordedCount(ps[0], Render(ps[1..]));
      ArgumentBalance(ps[1..]);
    } else {
      ScanNothing();
    }
  }

  lemma ScanNothing()
    ensures Scan("") == []
  {
  }

  /** The scanner finds enough arguments exactly when it does not miss more than it invents. */
  lemma NeverTooFew(ps: seq<Piece>)
    requires AllValid(ps)
    ensures |Scan(Render(ps))| >= |ArgumentTags(ps)| <==> Missed(ps) <= Invented(ps)
  {
    ArgumentBalance(ps);
  }

  lemma {:induction false} PlainCounts(ps: seq<Piece>)
    ensures Plain(ps) <==> Missed(ps) == 0 && Invented(ps) == 0
  {
    hide ReadsLikeDirective, Recognised, Arguments;
    if ps != [] {
      PlainCounts(ps[1..]);
    }
  }

  predicate NoLongDouble(ps: seq<Piece>) {
    forall p | p in ps :: !(p.Conversion? && p.length.LongDouble?)
  }

  lemma NoLongDoubleTag(s: string)
    ensures Directive(s).1 != Some(FMT_LDOUBLE)
  {
    var (t, m) := SkipLength(SkipPrecision(SkipDigits(SkipFlag(s))));
    assert m == 'L' ==> t != "" && TagOf(t[0], m).None?;
  }

  lemma {:induction false} NeverLongDouble(s: string)
    ensures FMT_LDOUBLE !in Scan(s)
    decreases |s|
  {
    hide Directive;
    if s != "" {
      if s[0] != '%' {
        NeverLongDouble(s[1..]);
      } else {
        var (rest, tag) := Directive(s[1..]);
        NoLongDoubleTag(s[1..]);
        DirectiveTakesNoPercent(s[1..]);
        PastShorter(s[1..], rest);
        NeverLongDouble(rest);
      }
    }
  }

  lemma {:induction false} LongDoubleAsked(ps: seq<Piece>, p: Piece)
    requires AllValid(ps) && p in ps && p.Conversion? && p.length.LongDouble?
    ensures FMT_LDOUBLE in ArgumentTags(ps)
  {
    if ps[0] != p {
      LongDoubleAsked(ps[1..], p);
    }
  }

  /** A list that both misses and invents arguments, which can make up for each other. */
  ghost predicate Mixed(ps: seq<Piece>) {
    NoLongDouble(ps) && Missed(ps) > 0 && Invented(ps) > 0
  }

  /** Exactly the plain lists are scanned to the arguments they take, mixed ones aside. */
  lemma ScanExactlyWhenPlain(ps: seq<Piece>)
    requires AllValid(ps) && !Mixed(ps)
    ensures Scan(Render(ps)) == ArgumentTags(ps) <==> Plain(ps)
  {
    if Plain(ps) {
      ScanUndoesRender(ps);
    } else if NoLongDouble(ps) {
      PlainCounts(ps);
      ArgumentBalance(ps);
    } else {
      var p :| p in ps && p.Conversion? && p.length.LongDouble?;
      LongDoubleAsked(ps, p);
      NeverLongDouble(Render(ps));
    }
  }

  // ------------------------------------------------ what the snprintf_s functions let through

  /** The pieces that take arguments, in order. */
  function Takers(ps: seq<Piece>): seq<Piece> {
    if ps == [] then [] else (if Arguments(ps[0]) == [] then [] else [ps[0]]) + Takers(ps[1..])
  }

  /** Converts an int, or a narrower integer that an int holds: one of diouxX or c, with any length but l. */
  predicate TakesInt(p: Piece) {
    p.Conversion? && (IntegerConversion(p.conv) || p.conv == 'c') && !p.length.L?
  }

  /** Converts a long. */
  predicate TakesLong(p: Piece) {
    p.Conversion? && IntegerConversion(p.conv) && p.length.L?
  }

  /** Converts a string of narrow characters. */
  predicate TakesString(p: Piece) {
    p.Conversion? && p.conv == 's' && !p.length.L?
  }

  lemma TagsOfTaker(p: Piece)
    requires Valid(p) && Recognised(p) && Arguments(p) != []
    ensures |Arguments(p)| == 1
    ensures var tag := Arguments(p)[0];
            (CheckIntegerFormat(tag) <==> TakesInt(p)) && (tag == FMT_LONG <==> TakesLong(p)) &&
            (tag == FMT_STRING <==> TakesString(p))
  {
  }

  lemma {:induction false} TagsOfTakers(ps: seq<Piece>)
    requires AllValid(ps) && Plain(ps)
    ensures |ArgumentTags(ps)| == |Takers(ps)|
    ensures forall i | 0 <= i < |Takers(ps)| ::
              var tag, p := ArgumentTags(ps)[i], Takers(ps)[i];
              (CheckIntegerFormat(tag) <==> TakesInt(p)) && (tag == FMT_LONG <==> TakesLong(p)) &&
              (tag == FMT_STRING <==> TakesString(p))
  {
    hide Arguments, Recognised, Valid, ReadsLikeDirective, CheckIntegerFormat, TakesInt, TakesLong, TakesString;
    if ps != [] {
      TagsOfTakers(ps[1..]);
      if Arguments(ps[0]) != [] {
        OnlyConversionsTake(ps[0]);
        TagsOfTaker(ps[0]);
      }
    }
  }

  lemma OnlyConversionsTake(p: Piece)
    requires Arguments(p) != []
    ensures p.Conversion?
  {
  }

  /** The arguments that a call supplies: a string first for _si and _sl, then a long or an int. */
  ghost predicate TakesSupplied(ps: seq<Piece>, withString: bool, long: bool) {
    var takers := Takers(ps);
    |takers| == (if withString then 2 else 1) && (withString ==> TakesString(takers[0])) &&
    if long then TakesLong(takers[|takers| - 1]) else TakesInt(takers[|takers| - 1])
  }

  lemma DemandedExactly(ps: seq<Piece>, withString: bool, long: bool)
    requires AllValid(ps) && Plain(ps)
    ensures Demanded(Scan(Render(ps)), withString, long) <==> TakesSupplied(ps, withString, long)
  {
    hide Scan, Render, Plain, ArgumentTags, Takers, CheckIntegerFormat, TakesInt, TakesLong, TakesString;
    ScanUndoesRender(ps);
    TagsOfTakers(ps);
  }

  /**
   snprintf_s_i, _l, _si and _sl on a printed plain format: snprintf is reached exactly when
   the pieces that take arguments are the one or two the call supplies.
   */
  method FormatsWhatIsSupplied(dest: array<char>, format: seq<char>, ghost ps: seq<Piece>, withString: bool, long: bool)
    returns (r: Gate)
    requires dest.Length > 0 && CString(format) && |format| <= UINT32_LIMIT
    requires AllValid(ps) && Plain(ps) && From(format, 0) == Render(ps)
    modifies dest
    ensures r.Formats? <==> TakesSupplied(ps, withString, long)
    ensures dest[..] == if r.Formats? then old(dest[..]) else old(dest[..])[0 := '\0']
  {
    hide Demanded, Scan, Render, Plain, TakesSupplied, From;
    DemandedExactly(ps, withString, long);
    r := SnprintfGate(dest, format, withString, long);
  }

  // ------------------------------------------------ formats that go wrong

  function Simple(conv: char): Piece {
    Conversion("", Number(""), None, NoLength, conv)
  }

  lemma RenderSimple(conv: char, rest: string)
    ensures RenderPiece(Simple(conv), rest) == ['%'] + ([conv] + rest)
  {
  }

  /** "%-+d" is a valid format for one int, and nothing is recorded for it. */
  lemma SecondFlagFormat()
    ensures var ps := [Conversion("-+", Number(""), None, NoLength, 'd')];
            AllValid(ps) && Render(ps) == "%-+d" && ArgumentTags(ps) == [FMT_INT] && Scan("%-+d") == []
  {
    hide Scan, Directive, Recognised;
    var p := Conversion("-+", Number(""), None, NoLength, 'd');
    assert [p][1..] == [];
    TwoFlagsRendered("");
    assert ['%'] + ("-+d" + "") == "%-+d";
    ScanPiece(p, "");
    ScanNothing();
  }

  /** "%*d%d" takes three ints, and the one-int function lets it through to snprintf. */
  lemma StarPassesGate()
    ensures var ps := [Conversion("", Star, None, NoLength, 'd'), Simple('d')];
            AllValid(ps) && Render(ps) == "%*d%d" && ArgumentTags(ps) == [FMT_INT, FMT_INT, FMT_INT] &&
            Demanded(Scan("%*d%d"), false, false)
  {
    hide Scan, Directive, RenderBehind, RenderPiece;
    var p, q := Conversion("", Star, None, NoLength, 'd'), Simple('d');
    assert [p, q][1..] == [q] && [q][1..] == [];
    RenderSimple('d', "");
    assert Render([q]) == "%d";
    StarRendered("%d");
    ScanPiece(p, "%d");
    ScanPiece(q, "");
    ScanNothing();
    assert ['%'] + "*d%d" == "%*d%d";
  }

  lemma StarRendered(rest: string)
    ensures RenderPiece(Conversion("", Star, None, NoLength, 'd'), rest) == ['%'] + ("*d" + rest)
  {
    assert RenderBehind(Conversion("", Star, None, NoLength, 'd'), rest) == "*d" + rest;
  }

  lemma TwoFlagsRendered(rest: string)
    ensures var p := Conversion("-+", Number(""), None, NoLength, 'd');
            Valid(p) && !Recognised(p) && RenderPiece(p, rest) == ['%'] + ("-+d" + rest)
  {
    var p := Conversion("-+", Number(""), None, NoLength, 'd');
    assert p.flags[1..] == ['+'] && '+' in p.flags[1..];
    assert RenderBehind(p, rest) == "-+d" + rest;
  }

  /** "%-+d%%d" misses one int and invents another, so its tags come out right although it is not plain. */
  lemma MixedCanCancel()
    ensures var ps := [Conversion("-+", Number(""), None, NoLength, 'd'), Percent, Literal("d")];
            AllValid(ps) && Mixed(ps) && !Plain(ps) && Scan(Render(ps)) == ArgumentTags(ps)
  {
    hide Scan, Directive, ReadsLikeDirective, Recognised;
    var p := Conversion("-+", Number(""), None, NoLength, 'd');
    var ps, tail := [p, Percent, Literal("d")], [Percent, Literal("d")];
    assert ps[1..] == tail && tail[1..] == [Literal("d")] && tail[1..][1..] == [];
    assert Render(tail[1..]) == "d";
    TwoFlagsRendered("");
    DoublePercentMiscounted();
    ScanPiece(p, "%%d");
    PlainCounts(tail);
    ArgumentBalance(tail);
    PlainCounts(ps);
  }

  /** "%%d" prints a percent sign and takes no argument, yet one int is recorded. */
  lemma DoublePercentMiscounted()
    ensures Render([Percent, Literal("d")]) == "%%d" && ArgumentTags([Percent, Literal("d")]) == []
    ensures Scan("%%d") == [FMT_INT]
  {
    assert Render([Percent, Literal("d")][1..][1..]) == "";
    assert Render([Percent, Literal("d")][1..]) == "d";
    assert "%%d" == ['%'] + "%d" && "%d" == ['%'] + "d";
    ScanPercent("%d");
    ScanPercent("d");
    assert Directive("d") == ("", Some(FMT_INT));
    assert Scan("d") == [];
  }
}
