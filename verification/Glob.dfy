/**
 The pattern translation of FindFirstFileA and FindNextFileA: three textual passes turn a
 glob into a regular expression, which std::regex_match then applies to a whole name.
 */
module Glob {
  import opened Wrappers

  // ------------------------------------------------ the translation

  /** std::regex_replace of one literal character. */
  function ReplaceAll(s: string, c: char, with: string): string {
    if s == "" then "" else (if s[0] == c then with else [s[0]]) + ReplaceAll(s[1..], c, with)
  }

  method RegexReplace(s: string, c: char, with: string) returns (r: string)
    ensures r == ReplaceAll(s, c, with)
  {
    r := "";
    var i := 0;
    while i < |s|
      invariant i <= |s| && r + ReplaceAll(s[i..], c, with) == ReplaceAll(s, c, with)
    {
      assert s[i..][1..] == s[i + 1..];
      r := r + if s[i] == c then with else [s[i]];
      i := i + 1;
    }
    assert s[i..] == "";
  }

  function CompileGlob(p: string): string {
    ReplaceAll(ReplaceAll(ReplaceAll(p, '.', "\\."), '*', ".*"), '?', ".")
  }

  /** The three assignments to sLeafMatch. */
  method TranslatePattern(leaf: string) returns (sLeafMatch: string)
    ensures sLeafMatch == CompileGlob(leaf)
  {
    sLeafMatch := RegexReplace(leaf, '.', "\\.");
    sLeafMatch := RegexReplace(sLeafMatch, '*', ".*");
    sLeafMatch := RegexReplace(sLeafMatch, '?', ".");
  }

  // ------------------------------------------------ regular expressions

  datatype Atom = Char(c: char) | AnyChar

  datatype Item = Item(atom: Atom, star: bool)

  predicate IsSyntax(c: char) {
    c in {'^', '$', '\\', '.', '*', '+', '?', '(', ')', '[', ']', '{', '}', '|'}
  }

  /** The atom at the head of an expression, and what follows; None beyond characters, '.' and escapes of syntax. */
  function ParseAtom(t: string): Option<(Atom, string)>
    requires t != ""
  {
    if t[0] == '\\' then
      if |t| > 1 && IsSyntax(t[1]) then Some((Char(t[1]), t[2..])) else None
    else if t[0] == '.' then Some((AnyChar, t[1..]))
    else if IsSyntax(t[0]) then None
    else Some((Char(t[0]), t[1..]))
  }

  function ParseRegex(t: string): Option<seq<Item>>
    decreases |t|
  {
    if t == "" then Some([])
    else
      var head := ParseAtom(t);
      if head.None? then None
      else
        var (atom, rest) := head.value;
        var star := rest != "" && rest[0] == '*';
        var tail := ParseRegex(if star then rest[1..] else rest);
        if tail.None? then None else Some([Item(atom, star)] + tail.value)
  }

  predicate IsLineBreak(c: char) {
    c == '\n' || c == '\r'
  }

  /** '.' stands for every character except a line break. */
  predicate AtomAccepts(a: Atom, c: char) {
    match a
    case Char(k) => c == k
    case AnyChar => !IsLineBreak(c)
  }

  /** A whole-name match. */
  predicate Matches(items: seq<Item>, name: string)
    decreases |items| + |name|
  {
    if items == [] then name == ""
    else if items[0].star then
      Matches(items[1..], name) ||
      (name != "" && AtomAccepts(items[0].atom, name[0]) && Matches(items, name[1..]))
    else name != "" && AtomAccepts(items[0].atom, name[0]) && Matches(items[1..], name[1..])
  }

  /** std::regex_match(name, std::regex(text)) */
  predicate RegexAccepts(text: string, name: string) {
    var items := ParseRegex(text);
    items.Some? && Matches(items.value, name)
  }

  // ------------------------------------------------ what a glob means

  predicate GlobMatches(p: string, name: string)
    decreases |p| + |name|
  {
    if p == "" then name == ""
    else if p[0] == '*' then GlobMatches(p[1..], name) || (name != "" && GlobMatches(p, name[1..]))
    else name != "" && (p[0] == '?' || p[0] == name[0]) && GlobMatches(p[1..], name[1..])
  }

  /** '*' stands for any stretch of characters. */
  lemma {:induction false} StarIsAnyStretch(q: string, name: string)
    ensures GlobMatches("*" + q, name) <==> exists k | 0 <= k <= |name| :: GlobMatches(q, name[k..])
    decreases |name|
  {
    var p := "*" + q;
    assert p[1..] == q && name[0..] == name;
    if name != "" {
      StarIsAnyStretch(q, name[1..]);
      if k :| 0 <= k <= |name[1..]| && GlobMatches(q, name[1..][k..]) {
        assert name[1..][k..] == name[k + 1..];
      }
      if k :| 0 < k <= |name| && GlobMatches(q, name[k..]) {
        assert name[k..] == name[1..][k - 1..];
      }
    }
  }

  // ------------------------------------------------ the passes together

  /** What the three passes make of one character. */
  function Piece(c: char): string {
    if c == '.' then "\\." else if c == '*' then ".*" else if c == '?' then "." else [c]
  }

  lemma {:induction false} ReplaceAppend(a: string, b: string, c: char, with: string)
    ensures ReplaceAll(a + b, c, with) == ReplaceAll(a, c, with) + ReplaceAll(b, c, with)
  {
    if a == "" {
      assert a + b == b;
    } else {
      assert (a + b)[1..] == a[1..] + b;
      ReplaceAppend(a[1..], b, c, with);
    }
  }

  lemma ReplaceOne(x: char, c: char, with: string)
    ensures ReplaceAll([x], c, with) == if x == c then with else [x]
  {
    assert ReplaceAll("", c, with) == "";
  }

  /** The passes work on one character as on its own: what one inserts, a later one leaves alone. */
  lemma PassesOnOne(c: char)
    ensures CompileGlob([c]) == Piece(c)
  {
    ReplaceOne(c, '.', "\\.");
    if c == '.' {
      assert "\\." == ['\\'] + ['.'];
      ReplaceAppend(['\\'], ['.'], '*', ".*");
      ReplaceOne('\\', '*', ".*");
      ReplaceOne('.', '*', ".*");
      ReplaceAppend(['\\'], ['.'], '?', ".");
      ReplaceOne('\\', '?', ".");
      ReplaceOne('.', '?', ".");
    } else {
      ReplaceOne(c, '*', ".*");
      ReplaceOne(c, '?', ".");
      if c == '*' {
        assert ".*" == ['.'] + ['*'];
        ReplaceAppend(['.'], ['*'], '?', ".");
        ReplaceOne('.', '?', ".");
        ReplaceOne('*', '?', ".");
      }
    }
  }

  lemma CompileStep(c: char, q: string)
    ensures CompileGlob([c] + q) == Piece(c) + CompileGlob(q)
  {
    PassesOnOne(c);
    ReplaceAppend([c], q, '.', "\\.");
    var a, b := ReplaceAll([c], '.', "\\."), ReplaceAll(q, '.', "\\.");
    ReplaceAppend(a, b, '*', ".*");
    ReplaceAppend(ReplaceAll(a, '*', ".*"), ReplaceAll(b, '*', ".*"), '?', ".");
  }

  lemma CompileHead(p: string)
    ensures p == "" ==> CompileGlob(p) == ""
    ensures p != "" ==> CompileGlob(p) == Piece(p[0]) + CompileGlob(p[1..])
  {
    if p != "" {
      assert p == [p[0]] + p[1..];
      CompileStep(p[0], p[1..]);
    }
  }

  /** A pattern whose only regex syntax is '.', '*' and '?'. */
  predicate PlainPattern(p: string) {
    forall c | c in p :: IsSyntax(c) ==> c == '.' || c == '*' || c == '?'
  }

  function ItemOf(c: char): Item {
    if c == '*' then Item(AnyChar, true) else if c == '?' then Item(AnyChar, false) else Item(Char(c), false)
  }

  function ItemsOf(p: string): seq<Item> {
    if p == "" then [] else [ItemOf(p[0])] + ItemsOf(p[1..])
  }

  /** The text the passes produce parses to one item for each pattern character. */
  lemma {:induction false} CompiledParses(p: string)
    requires PlainPattern(p)
    ensures ParseRegex(CompileGlob(p)) == Some(ItemsOf(p))
  {
    CompileHead(p);
    if p != "" {
      var c, rest := p[0], CompileGlob(p[1..]);
      CompileHead(p[1..]);
      CompiledParses(p[1..]);
      var t := Piece(c) + rest;
      assert c in p;
      assert rest != "" ==> rest[0] != '*';
      if c == '.' {
        assert t[2..] == rest;
      } else if c == '*' {
        assert t[1..][0] == '*' && t[1..][1..] == rest;
      } else {
        assert t[1..] == rest;
      }
    }
  }

  predicate NoLineBreaks(name: string) {
    forall c | c in name :: !IsLineBreak(c)
  }

  /** A glob whose wildcards refuse line breaks. */
  predicate GlobWithoutBreaks(p: string, name: string)
    decreases |p| + |name|
  {
    if p == "" then name == ""
    else if p[0] == '*' then
      GlobWithoutBreaks(p[1..], name) ||
      (name != "" && !IsLineBreak(name[0]) && GlobWithoutBreaks(p, name[1..]))
    else
      name != "" && (if p[0] == '?' then !IsLineBreak(name[0]) else p[0] == name[0]) &&
      GlobWithoutBreaks(p[1..], name[1..])
  }

  lemma {:induction false} ItemsMeanGlob(p: string, name: string)
    ensures Matches(ItemsOf(p), name) <==> GlobWithoutBreaks(p, name)
    decreases |p| + |name|
  {
    if p != "" {
      assert ItemsOf(p)[1..] == ItemsOf(p[1..]);
      if p[0] == '*' {
        ItemsMeanGlob(p[1..], name);
      }
      if name != "" {
        ItemsMeanGlob(p[1..], name[1..]);
        ItemsMeanGlob(p, name[1..]);
      }
    }
  }

  /** What the compiled pattern accepts, for every name whatsoever. */
  lemma CompileGlobExact(p: string, name: string)
    requires PlainPattern(p)
    ensures RegexAccepts(CompileGlob(p), name) <==> GlobWithoutBreaks(p, name)
  {
    CompiledParses(p);
    ItemsMeanGlob(p, name);
  }

  lemma {:induction false} NoBreaksNoDifference(p: string, name: string)
    requires NoLineBreaks(name)
    ensures GlobWithoutBreaks(p, name) <==> GlobMatches(p, name)
    decreases |p| + |name|
  {
    if p != "" {
      if p[0] == '*' {
        NoBreaksNoDifference(p[1..], name);
      }
      if name != "" {
        NoBreaksNoDifference(p[1..], name[1..]);
        NoBreaksNoDifference(p, name[1..]);
      }
    }
  }

  /** The compiler preserves meaning: of names without line breaks the regex accepts what the glob denotes. */
  lemma CompileGlobCorrect(p: string, name: string)
    requires PlainPattern(p) && NoLineBreaks(name)
    ensures RegexAccepts(CompileGlob(p), name) <==> GlobMatches(p, name)
  {
    CompileGlobExact(p, name);
    NoBreaksNoDifference(p, name);
  }

  predicate IsWildcard(c: char) {
    c == '*' || c == '?'
  }

  predicate HasWildcard(p: string) {
    '*' in p || '?' in p
  }

  function Breaks(s: string): nat {
    if s == "" then 0 else (if IsLineBreak(s[0]) then 1 else 0) + Breaks(s[1..])
  }

  function Wildcards(p: string): nat {
    if p == "" then 0 else (if IsWildcard(p[0]) then 1 else 0) + Wildcards(p[1..])
  }

  /** An accepted name has just the line breaks that the pattern spells out. */
  lemma {:induction false} BreaksAreSpelledOut(p: string, name: string)
    requires GlobWithoutBreaks(p, name)
    ensures Breaks(name) == Breaks(p)
    decreases |p| + |name|
  {
    if p != "" {
      if p[0] == '*' && GlobWithoutBreaks(p[1..], name) {
        BreaksAreSpelledOut(p[1..], name);
      } else if p[0] == '*' {
        BreaksAreSpelledOut(p, name[1..]);
      } else {
        BreaksAreSpelledOut(p[1..], name[1..]);
      }
    }
  }

  /** The pattern with a line break in the place of every wildcard. */
  function Broken(p: string): string {
    if p == "" then "" else [if IsWildcard(p[0]) then '\n' else p[0]] + Broken(p[1..])
  }

  lemma {:induction false} BrokenMatches(p: string)
    ensures GlobMatches(p, Broken(p)) && Breaks(Broken(p)) == Breaks(p) + Wildcards(p)
  {
    if p != "" {
      BrokenMatches(p[1..]);
      assert Broken(p)[1..] == Broken(p[1..]);
      if p[0] == '*' {
        var name := Broken(p[1..]);
        assert GlobMatches(p, name);
      }
    }
  }

  lemma {:induction false} SpelledOutGlob(p: string, name: string)
    requires !HasWildcard(p)
    ensures GlobWithoutBreaks(p, name) <==> GlobMatches(p, name)
  {
    if p != "" {
      assert p[0] in p && forall c | c in p[1..] :: c in p;
      if name != "" {
        SpelledOutGlob(p[1..], name[1..]);
      }
    }
  }

  lemma {:induction false} WildcardCounts(p: string)
    ensures HasWildcard(p) <==> Wildcards(p) > 0
  {
    if p != "" {
      WildcardCounts(p[1..]);
      assert forall c :: c in p <==> c == p[0] || c in p[1..];
    }
  }

  /** A plain pattern is compiled right for all names exactly when it has no wildcard. */
  lemma RightForAllNamesExactly(p: string)
    requires PlainPattern(p)
    ensures (forall name :: RegexAccepts(CompileGlob(p), name) <==> GlobMatches(p, name)) <==> !HasWildcard(p)
  {
    WildcardCounts(p);
    if HasWildcard(p) {
      var name := Broken(p);
      BrokenMatches(p);
      CompileGlobExact(p, name);
      if GlobWithoutBreaks(p, name) {
        BreaksAreSpelledOut(p, name);
      }
    } else {
      forall name
        ensures RegexAccepts(CompileGlob(p), name) <==> GlobMatches(p, name)
      {
        CompileGlobExact(p, name);
        SpelledOutGlob(p, name);
      }
    }
  }

  lemma {:induction false} AnyStretch(name: string)
    ensures GlobWithoutBreaks("*", name) <==> NoLineBreaks(name)
  {
    assert "*"[1..] == "";
    if name != "" {
      AnyStretch(name[1..]);
      assert forall c :: c in name <==> c == name[0] || c in name[1..];
    }
  }

  /** The pattern "*" denotes every name; compiled, it accepts exactly the names without a line break. */
  lemma StarMissesLineBreaks(name: string)
    ensures GlobMatches("*", name)
    ensures RegexAccepts(CompileGlob("*"), name) <==> NoLineBreaks(name)
  {
    CompileGlobExact("*", name);
    AnyStretch(name);
    StarIsAnyStretch("", name);
    assert "*" + "" == "*" && name[|name|..] == "";
  }
}
