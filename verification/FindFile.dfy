/**
 FindFirstFileA and FindNextFileA over an unchanged file system. Nothing is remembered
 between calls but the path of the last hit: every call lists the directory again, in any
 order, sorts it, and looks for its place.
 */
module FindFile {
  import opened Wrappers
  import opened HandleTable
  import Glob

  const INVALID_HANDLE_VALUE: int := -1

  // ------------------------------------------------ std::sort on strings

  /** operator< of std::string */
  predicate Less(a: string, b: string) {
    b != "" && (a == "" || a[0] < b[0] || (a[0] == b[0] && Less(a[1..], b[1..])))
  }

  lemma {:induction false} LessTransitive(a: string, b: string, c: string)
    requires Less(a, b) && Less(b, c)
    ensures Less(a, c)
  {
    if a != "" && a[0] == b[0] == c[0] {
      LessTransitive(a[1..], b[1..], c[1..]);
    }
  }

  lemma {:induction false} LessTotal(a: string, b: string)
    ensures Less(a, b) || Less(b, a) || a == b
    ensures !(Less(a, b) && Less(b, a)) && !Less(a, a)
  {
    if a != "" {
      LessTotal(a[1..], a[1..]);
      if b != "" && a[0] == b[0] {
        LessTotal(a[1..], b[1..]);
        assert a == [a[0]] + a[1..] && b == [b[0]] + b[1..];
      }
    }
  }

  /** The order is the lexicographic one: a proper prefix comes first, and otherwise the first difference decides. */
  lemma {:induction false} LessExactly(a: string, b: string)
    ensures Less(a, b) <==>
              (|a| < |b| && a == b[..|a|]) ||
              exists k :: 0 <= k < |a| && k < |b| && a[..k] == b[..k] && a[k] < b[k]
  {
    if a != "" && b != "" && a[0] == b[0] {
      var u, v := a[1..], b[1..];
      LessExactly(u, v);
      assert a == [a[0]] + u && b == [b[0]] + v;
      if k :| 0 <= k < |u| && k < |v| && u[..k] == v[..k] && u[k] < v[k] {
        assert a[..k + 1] == [a[0]] + u[..k] && b[..k + 1] == [b[0]] + v[..k];
        assert a[k + 1] < b[k + 1];
      }
      if k :| 0 <= k < |a| && k < |b| && a[..k] == b[..k] && a[k] < b[k] {
        assert k > 0;
        assert u[..k - 1] == a[..k][1..] && v[..k - 1] == b[..k][1..];
        assert u[k - 1] < v[k - 1];
      }
      assert |a| < |b| ==> b[..|a|] == [b[0]] + v[..|u|];
      assert |a| < |b| && a == b[..|a|] ==> u == b[..|a|][1..];
    } else if a != "" && b != "" && a[0] < b[0] {
      assert a[..0] == b[..0];
    } else if a != "" && b != "" {
      assert forall k | 0 < k <= |a| && k <= |b| :: a[..k][0] == a[0] && b[..k][0] == b[0];
    }
  }

  predicate Sorted(s: seq<string>) {
    forall i, j | 0 <= i < j < |s| :: Less(s[i], s[j])
  }

  function Elements(s: seq<string>): set<string> {
    set x | x in s
  }

  predicate NoDuplicates(s: seq<string>) {
    forall i, j | 0 <= i < j < |s| :: s[i] != s[j]
  }

  function Insert(x: string, s: seq<string>): seq<string> {
    if s == [] || Less(x, s[0]) then [x] + s else [s[0]] + Insert(x, s[1..])
  }

  function Sort(s: seq<string>): seq<string> {
    if s == [] then [] else Insert(s[0], Sort(s[1..]))
  }

  lemma {:induction false} InsertSorts(x: string, s: seq<string>)
    requires Sorted(s) && x !in s
    ensures Sorted(Insert(x, s)) && Elements(Insert(x, s)) == Elements(s) + {x}
  {
    var r := Insert(x, s);
    if s == [] {
    } else if Less(x, s[0]) {
      forall j | 0 <= j < |s|
        ensures Less(x, s[j])
      {
        if j > 0 {
          LessTransitive(x, s[0], s[j]);
        }
      }
    } else {
      var t := s[1..];
      InsertSorts(x, t);
      LessTotal(x, s[0]);
      forall y | y in Insert(x, t)
        ensures Less(s[0], y)
      {
        assert y in Elements(Insert(x, t));
        if y != x {
          assert y in Elements(t);
          var j :| 0 <= j < |t| && t[j] == y;
          assert s[0] in s && s[j + 1] == y;
        }
      }
      assert Elements(s) == Elements(t) + {s[0]};
      assert Elements(r) == Elements(Insert(x, t)) + {s[0]};
    }
  }

  lemma {:induction false} SortSorts(s: seq<string>)
    requires NoDuplicates(s)
    ensures Sorted(Sort(s)) && Elements(Sort(s)) == Elements(s)
  {
    if s != [] {
      var t := s[1..];
      SortSorts(t);
      assert s[0] !in t;
      assert s[0] !in Elements(Sort(t));
      InsertSorts(s[0], Sort(t));
      assert Elements(s) == Elements(t) + {s[0]};
    }
  }

  lemma {:induction false} SortedUnique(a: seq<string>, b: seq<string>)
    requires Sorted(a) && Sorted(b) && Elements(a) == Elements(b)
    ensures a == b
  {
    assert b != [] ==> b[0] in Elements(b);
    if a != [] {
      assert a[0] in Elements(b);
      assert b[0] in Elements(a);
      var i :| 0 <= i < |b| && b[i] == a[0];
      var j :| 0 <= j < |a| && a[j] == b[0];
      LessTotal(a[0], b[0]);
      assert a[0] == b[0];
      HeadNotInTail(a);
      HeadNotInTail(b);
      assert Elements(a[1..]) == Elements(a) - {a[0]};
      assert Elements(b[1..]) == Elements(b) - {b[0]};
      SortedUnique(a[1..], b[1..]);
      assert a == [a[0]] + a[1..] && b == [b[0]] + b[1..];
    }
  }

  lemma HeadNotInTail(s: seq<string>)
    requires Sorted(s) && s != []
    ensures s[0] !in s[1..]
  {
    LessTotal(s[0], s[0]);
  }

  /** Two listings of the same directory, in whatever order, sort to the same sequence. */
  lemma ListingOrderIrrelevant(a: seq<string>, b: seq<string>)
    requires NoDuplicates(a) && NoDuplicates(b) && Elements(a) == Elements(b)
    ensures Sort(a) == Sort(b)
  {
    SortSorts(a);
    SortSorts(b);
    SortedUnique(Sort(a), Sort(b));
  }

  // ------------------------------------------------ the cursor on a sorted listing

  /** The entries that are hits, in order. */
  function Filter(paths: seq<string>, hit: string -> bool): seq<string> {
    if paths == [] then [] else (if hit(paths[0]) then [paths[0]] else []) + Filter(paths[1..], hit)
  }

  /** The first hit. */
  function FirstHit(paths: seq<string>, hit: string -> bool): Option<string> {
    var hits := Filter(paths, hit);
    if hits == [] then None else Some(hits[0])
  }

  /** The first hit behind the entry last; None also when last is not listed. */
  function NextHit(paths: seq<string>, hit: string -> bool, last: string): Option<string> {
    if paths == [] then None
    else if paths[0] == last then FirstHit(paths[1..], hit)
    else NextHit(paths[1..], hit, last)
  }

  lemma {:induction false} FilterElements(paths: seq<string>, hit: string -> bool)
    ensures forall p :: p in Filter(paths, hit) <==> p in paths && hit(p)
  {
    if paths != [] {
      FilterElements(paths[1..], hit);
      assert forall p :: p in paths <==> p == paths[0] || p in paths[1..];
    }
  }

  lemma SortedTail(paths: seq<string>, x: string)
    requires Sorted(paths) && paths != [] && x in paths[1..]
    ensures Less(paths[0], x)
  {
    var j :| 0 <= j < |paths[1..]| && paths[1..][j] == x;
    assert paths[j + 1] == x;
  }

  /** The hits come out sorted, so no entry comes twice. */
  lemma {:induction false} FilterSorted(paths: seq<string>, hit: string -> bool)
    requires Sorted(paths)
    ensures Sorted(Filter(paths, hit))
  {
    if paths != [] {
      var rest := Filter(paths[1..], hit);
      FilterSorted(paths[1..], hit);
      FilterElements(paths[1..], hit);
      forall i | 0 <= i < |rest|
        ensures Less(paths[0], rest[i])
      {
        SortedTail(paths, rest[i]);
      }
    }
  }

  /** From the k-th hit the rescan finds the next one, or nothing after the last. */
  lemma {:induction false} RescanFindsNext(paths: seq<string>, hit: string -> bool, k: nat)
    requires NoDuplicates(paths) && k < |Filter(paths, hit)|
    ensures var hits := Filter(paths, hit);
            NextHit(paths, hit, hits[k]) == if k + 1 < |hits| then Some(hits[k + 1]) else None
  {
    var hits, rest := Filter(paths, hit), Filter(paths[1..], hit);
    FilterElements(paths[1..], hit);
    assert paths[0] !in paths[1..];
    if hit(paths[0]) {
      assert hits == [paths[0]] + rest;
      if k > 0 {
        assert hits[k] in rest;
        RescanFindsNext(paths[1..], hit, k - 1);
      }
    } else {
      assert hits == rest && hits[k] in rest;
      RescanFindsNext(paths[1..], hit, k);
    }
  }

  /** How many of the hits come in front of the first one that the exists test refuses. */
  function Upto(hits: seq<string>, present: set<string>): (n: nat)
    ensures n <= |hits| && (forall i | 0 <= i < n :: hits[i] in present) && (n < |hits| ==> hits[n] !in present)
  {
    if hits == [] || hits[0] !in present then 0 else 1 + Upto(hits[1..], present)
  }

  /** One FindNextFileA on an unchanged directory: its answer, and the path it leaves stored. */
  function Advance(paths: seq<string>, hit: string -> bool, present: set<string>, stored: string):
    (Option<string>, string)
  {
    var next := NextHit(paths, hit, stored);
    if next.Some? && next.value in present then (next, next.value) else (None, stored)
  }

  /** The stored path after FindFirstFileA and k calls of FindNextFileA. */
  function StoredAfter(paths: seq<string>, hit: string -> bool, present: set<string>, k: nat): string
    requires Filter(paths, hit) != []
  {
    if k == 0 then Filter(paths, hit)[0]
    else Advance(paths, hit, present, StoredAfter(paths, hit, present, k - 1)).1
  }

  lemma {:induction false} StoredPosition(paths: seq<string>, hit: string -> bool, present: set<string>, k: nat)
    requires NoDuplicates(paths) && Upto(Filter(paths, hit), present) > 0
    ensures var hits := Filter(paths, hit);
            var n := Upto(hits, present);
            StoredAfter(paths, hit, present, k) == hits[if k < n then k else n - 1]
  {
    if k > 0 {
      StoredPosition(paths, hit, present, k - 1);
      var n := Upto(Filter(paths, hit), present);
      RescanFindsNext(paths, hit, if k - 1 < n then k - 1 else n - 1);
    }
  }

  lemma SortedHasNoDuplicates(paths: seq<string>)
    requires Sorted(paths)
    ensures NoDuplicates(paths)
  {
    forall i, j | 0 <= i < j < |paths|
      ensures paths[i] != paths[j]
    {
      LessTotal(paths[i], paths[j]);
    }
  }

  /**
   The cursor refines the filter, up to the first hit that does not exist: the k-th
   FindNextFileA returns the k-th hit behind the first, and from the first call that meets a
   refused hit, or the end, every call answers FALSE. The hits are sorted and are all the
   listed entries that match.
   */
  lemma CursorRefinesFilter(paths: seq<string>, hit: string -> bool, present: set<string>, k: nat)
    requires Sorted(paths) && Upto(Filter(paths, hit), present) > 0
    ensures var hits := Filter(paths, hit);
            Sorted(hits) && (forall p :: p in hits <==> p in paths && hit(p)) &&
            Advance(paths, hit, present, StoredAfter(paths, hit, present, k)).0 ==
            if k + 1 < Upto(hits, present) then Some(hits[k + 1]) else None
  {
    SortedHasNoDuplicates(paths);
    StoredPosition(paths, hit, present, k);
    FilterSorted(paths, hit);
    FilterElements(paths, hit);
    var n := Upto(Filter(paths, hit), present);
    RescanFindsNext(paths, hit, if k < n then k else n - 1);
  }

  /** Every hit comes out exactly when every hit exists. */
  lemma AllHitsComeOutExactly(hits: seq<string>, present: set<string>)
    ensures Upto(hits, present) == |hits| <==> forall p | p in hits :: p in present
  {
    if Upto(hits, present) < |hits| {
      assert hits[Upto(hits, present)] in hits;
    }
  }

  // ------------------------------------------------ paths

  /** The position of the last separator, or -1. */
  function LastSlash(s: string): (i: int)
    ensures -1 <= i < |s|
    ensures i >= 0 ==> s[i] == '/'
    ensures forall j | i < j < |s| :: s[j] != '/'
  {
    if s == "" then -1
    else if s[|s| - 1] == '/' then |s| - 1
    else LastSlash(s[..|s| - 1])
  }

  function Leaf(s: string): string {
    s[LastSlash(s) + 1..]
  }

  function Parent(s: string): string {
    var i := LastSlash(s);
    if i < 0 then "" else if i == 0 then "/" else s[..i]
  }

  function Join(dir: string, name: string): string {
    if dir != "" && dir[|dir| - 1] == '/' then dir + name else dir + "/" + name
  }

  lemma JoinSplits(dir: string, name: string)
    requires '/' !in name
    ensures Leaf(Join(dir, name)) == name
  {
    var p := Join(dir, name);
    var n := |p| - |name|;
    assert p[n..] == name && p[n - 1] == '/';
    forall j | n <= j < |p|
      ensures p[j] != '/'
    {
      assert p[j] == name[j - n];
    }
  }

  /**
   The file system as the calls see it: the entry names of every directory, and the paths
   that boost::filesystem::exists accepts. The test follows symbolic links, so a listed
   entry need not be among them.
   */
  datatype FileSystem = FileSystem(dirs: map<string, set<string>>, present: set<string>)

  /** std::regex_match(name, std::regex(text)); a malformed text throws, which ends the call without a hit. */
  type RegexMatch = (string, string) -> bool

  /** A directory path as it stands in front of an entry: the root, or one that does not end in a separator. */
  predicate DirectoryPath(dir: string) {
    dir == "/" || (dir != "" && dir[|dir| - 1] != '/')
  }

  lemma LastSlashIs(p: string, i: nat, name: string)
    requires i < |p| && p[i] == '/' && p[i + 1..] == name && '/' !in name
    ensures LastSlash(p) == i
  {
    hide LastSlash;
    forall j | i < j < |p|
      ensures p[j] != '/'
    {
      assert p[j] == name[j - i - 1];
    }
  }

  /** An entry's path names its directory. */
  lemma ParentOfJoin(dir: string, name: string)
    requires DirectoryPath(dir) && '/' !in name
    ensures Parent(Join(dir, name)) == dir && Leaf(Join(dir, name)) == name
  {
    hide LastSlash;
    var p := Join(dir, name);
    if dir == "/" {
      assert p[1..] == name;
      LastSlashIs(p, 0, name);
    } else {
      assert p == dir + ("/" + name);
      assert p[|dir| + 1..] == name && p[..|dir|] == dir;
      LastSlashIs(p, |dir|, name);
    }
  }

  /** One pass of directory_iterator over dir: every entry once, in any order. */
  ghost predicate Lists(fs: FileSystem, dir: string, listing: seq<string>)
    requires dir in fs.dirs
  {
    NoDuplicates(listing) && Elements(listing) == set n | n in fs.dirs[dir] :: Join(dir, n)
  }

  /** Two calls see the same sorted paths, whatever order the iterator chose for each. */
  lemma RescansAgree(fs: FileSystem, dir: string, a: seq<string>, b: seq<string>)
    requires dir in fs.dirs && Lists(fs, dir, a) && Lists(fs, dir, b)
    ensures Sort(a) == Sort(b) && Sorted(Sort(a))
  {
    ListingOrderIrrelevant(a, b);
    SortSorts(a);
  }

  function Normalized(name: string): string {
    Glob.ReplaceAll(name, '\\', "/")
  }

  /** Every backslash becomes a slash, and nothing else changes. */
  lemma {:induction false} NormalizedExactly(s: string)
    ensures |Normalized(s)| == |s| && forall i | 0 <= i < |s| :: Normalized(s)[i] == if s[i] == '\\' then '/' else s[i]
  {
    if s != "" {
      NormalizedExactly(s[1..]);
      assert Normalized(s) == [if s[0] == '\\' then '/' else s[0]] + Normalized(s[1..]);
    }
  }

  // ------------------------------------------------ the two calls

  /** `std::regex_match(path(tpath).leaf(), regex)` */
  function RegexHit(rx: RegexMatch, regex: string): string -> bool {
    path => rx(regex, Leaf(path))
  }

  /** The test both calls put to an entry. */
  function HitOf(rx: RegexMatch, pattern: string): string -> bool {
    RegexHit(rx, Glob.CompileGlob(pattern))
  }

  /** The engine agrees with the meaning of the expressions that plain patterns compile to. */
  ghost predicate Understands(rx: RegexMatch) {
    forall text, name | Glob.ParseRegex(text).Some? :: rx(text, name) <==> Glob.RegexAccepts(text, name)
  }

  /** For plain patterns a hit is an entry whose name the glob denotes, if no wildcard has to stand for a line break. */
  lemma HitIsGlobMatch(rx: RegexMatch, pattern: string, dir: string, name: string)
    requires Understands(rx) && Glob.PlainPattern(pattern) && '/' !in name
    ensures HitOf(rx, pattern)(Join(dir, name)) <==> Glob.GlobWithoutBreaks(pattern, name)
    ensures Glob.NoLineBreaks(name) ==> (HitOf(rx, pattern)(Join(dir, name)) <==> Glob.GlobMatches(pattern, name))
  {
    JoinSplits(dir, name);
    Glob.CompiledParses(pattern);
    Glob.CompileGlobExact(pattern, name);
    if Glob.NoLineBreaks(name) {
      Glob.CompileGlobCorrect(pattern, name);
    }
  }

  /** The search loop of FindFirstFileA. */
  method SearchFirst(paths: seq<string>, hit: string -> bool) returns (foundFilePath: Option<string>)
    ensures foundFilePath == FirstHit(paths, hit)
  {
    for i := 0 to |paths|
      invariant Filter(paths[i..], hit) == Filter(paths, hit)
    {
      assert paths[i..][1..] == paths[i + 1..];
      if hit(paths[i]) {
        return Some(paths[i]);
      }
    }
    return None;
  }

  /** The search loop of FindNextFileA, with its flag. */
  method SearchNext(paths: seq<string>, hit: string -> bool, last: string)
    returns (foundFilePath: Option<string>, lastFound: bool)
    ensures foundFilePath == NextHit(paths, hit, last)
    ensures (lastFound <==> last in paths) && (foundFilePath.Some? ==> lastFound)
  {
    lastFound := false;
    for i := 0 to |paths|
      invariant lastFound <==> last in paths[..i]
      invariant NextHit(paths, hit, last) ==
                if lastFound then FirstHit(paths[i..], hit) else NextHit(paths[i..], hit, last)
    {
      assert paths[i..][1..] == paths[i + 1..];
      if !lastFound {
        lastFound := paths[i] == last;
      } else if hit(paths[i]) {
        return Some(paths[i]), lastFound;
      }
    }
    return None, lastFound;
  }

  /**
   A wildcard pattern whose directory can be listed. Any other directory, the empty one of a
   bare pattern included, ends the call.
   */
  predicate Listable(fs: FileSystem, sFileName: string) {
    Glob.HasWildcard(sFileName) && !Glob.HasWildcard(Parent(sFileName)) &&
    Parent(sFileName) != "" && Parent(sFileName) in fs.dirs
  }

  /** The path FindFirstFileA settles on. */
  function FirstPath(fs: FileSystem, rx: RegexMatch, sFileName: string, listing: seq<string>): Option<string> {
    if !Glob.HasWildcard(sFileName) then (if sFileName == "" then None else Some(sFileName))
    else if !Listable(fs, sFileName) then None
    else FirstHit(Sort(listing), HitOf(rx, Leaf(sFileName)))
  }

  method LocateFirst(fs: FileSystem, rx: RegexMatch, sFileName: string, listing: seq<string>)
    returns (found: Option<string>)
    ensures found == FirstPath(fs, rx, sFileName, listing)
  {
    if Glob.HasWildcard(sFileName) {
      var dir := Parent(sFileName);
      if Glob.HasWildcard(dir) || dir == "" || dir !in fs.dirs {
        return None;
      }
      var sLeafMatch := Glob.TranslatePattern(Leaf(sFileName));
      found := SearchFirst(Sort(listing), RegexHit(rx, sLeafMatch));
    } else {
      found := if sFileName == "" then None else Some(sFileName);
    }
  }

  /** fd and rand stand for the results of open and of rand. */
  method FindFirstFileA(table: Table, fs: FileSystem, rx: RegexMatch, listing: seq<string>,
                        fileName: string, fd: int, rand: int)
    returns (ret: int, cFileName: string)
    requires table.Valid() && 0 <= rand
    requires exists k :: rand <= k <= INT_MAX && k !in table.entries
    modifies table
    ensures table.Valid()
    ensures var found := FirstPath(fs, rx, Normalized(fileName), listing);
            if found.Some? && found.value in fs.present
            then ret >= 0 && ret !in old(table.entries) && cFileName == Leaf(found.value) &&
                 table.entries == old(table.entries)[ret :=
                   Header(ret, FILE, FileInfo(fd, ToField(found.value), ToField(Normalized(fileName))))]
            else ret == INVALID_HANDLE_VALUE && table.entries == old(table.entries)
    ensures var s := Normalized(fileName);
            !Glob.HasWildcard(s) ==>
              (ret != INVALID_HANDLE_VALUE <==> s != "" && s in fs.present) &&
              (ret != INVALID_HANDLE_VALUE ==> cFileName == Leaf(s))
  {
    ret, cFileName := INVALID_HANDLE_VALUE, "";
    var sFileName := Glob.RegexReplace(fileName, '\\', "/");
    var found := LocateFirst(fs, rx, sFileName, listing);
    if found.Some? && found.value in fs.present {
      ret := table.RegFd(rand, fd, found.value, sFileName);
      cFileName := Leaf(found.value);
    }
  }

  /** In a directory that can be listed the search is among its entries, by the pattern behind its path. */
  lemma SearchesNamedDirectory(fs: FileSystem, rx: RegexMatch, dir: string, glob: string, listing: seq<string>)
    requires DirectoryPath(dir) && '/' !in glob && Glob.HasWildcard(glob) && !Glob.HasWildcard(dir)
    ensures Listable(fs, Join(dir, glob)) <==> dir in fs.dirs
    ensures FirstPath(fs, rx, Join(dir, glob), listing) ==
            if dir in fs.dirs then FirstHit(Sort(listing), HitOf(rx, glob)) else None
    ensures forall last :: NextPath(fs, rx, Join(dir, glob), listing, last) ==
                           if dir in fs.dirs then NextHit(Sort(listing), HitOf(rx, glob), last) else None
  {
    hide Parent, Leaf, HitOf, FirstHit, NextHit, Sort;
    ParentOfJoin(dir, glob);
    WildcardInJoin(dir, glob);
  }

  lemma WildcardInJoin(dir: string, glob: string)
    requires Glob.HasWildcard(glob)
    ensures Glob.HasWildcard(Join(dir, glob))
  {
    JoinIsFront(dir, glob);
    var c := if '*' in glob then '*' else '?';
    var i :| 0 <= i < |glob| && glob[i] == c;
    assert Join(dir, glob)[|Front(dir)| + i] == c;
  }

  /** A pattern without a directory finds nothing: its parent is the empty path, which cannot be listed. */
  lemma BarePatternFindsNothing(fs: FileSystem, rx: RegexMatch, glob: string, listing: seq<string>)
    requires '/' !in glob && Glob.HasWildcard(glob)
    ensures FirstPath(fs, rx, glob, listing) == None
  {
    assert LastSlash(glob) == -1;
  }

  /** A wildcard in the directory is not implemented and finds nothing. */
  lemma WildcardDirectoryFindsNothing(fs: FileSystem, rx: RegexMatch, dir: string, glob: string, listing: seq<string>)
    requires DirectoryPath(dir) && '/' !in glob && Glob.HasWildcard(dir)
    ensures FirstPath(fs, rx, Join(dir, glob), listing) == None
  {
    hide Parent, Leaf, HitOf, FirstHit, Sort;
    ParentOfJoin(dir, glob);
    JoinIsFront(dir, glob);
    var c := if '*' in dir then '*' else '?';
    var i :| 0 <= i < |dir| && dir[i] == c;
    assert Join(dir, glob)[i] == c;
  }

  /** The path FindNextFileA finds from the stored pattern and path; a pattern without wildcards never advances. */
  function NextPath(fs: FileSystem, rx: RegexMatch, sFileName: string, listing: seq<string>, last: string):
    Option<string>
  {
    if Listable(fs, sFileName) then NextHit(Sort(listing), HitOf(rx, Leaf(sFileName)), last) else None
  }

  method LocateNext(fs: FileSystem, rx: RegexMatch, sFileName: string, listing: seq<string>, last: string)
    returns (found: Option<string>, lastFound: bool)
    ensures (if lastFound then found else None) == NextPath(fs, rx, sFileName, listing, last)
    ensures lastFound <==> Listable(fs, sFileName) && last in Sort(listing)
  {
    found, lastFound := None, false;
    if Glob.HasWildcard(sFileName) {
      var dir := Parent(sFileName);
      if Glob.HasWildcard(dir) || dir == "" || dir !in fs.dirs {
        return;
      }
      var sLeafMatch := Glob.TranslatePattern(Leaf(sFileName));
      found, lastFound := SearchNext(Sort(listing), RegexHit(rx, sLeafMatch), last);
    } else {
      found := Some(sFileName);
    }
  }

  /** closed is the descriptor the call closes when it passes the stored path; only a hit replaces it. */
  method FindNextFileA(table: Table, fs: FileSystem, rx: RegexMatch, listing: seq<string>, hFindFile: int, fd: int)
    returns (ret: bool, cFileName: string, closed: Option<int>)
    requires table.Valid()
    requires hFindFile in table.entries ==> table.entries[hFindFile].kind.FILE?
    requires table.GetFdPath(hFindFile).Some? && table.GetFdFindPattern(hFindFile).Some?
    modifies table
    ensures table.Valid()
    ensures var pattern, last := old(table.GetFdFindPattern(hFindFile).value), old(table.GetFdPath(hFindFile).value);
            var found := NextPath(fs, rx, Normalized(pattern), listing, last);
            if pattern != "" && found.Some? && found.value in fs.present
            then ret && cFileName == Leaf(found.value) && hFindFile in old(table.entries) &&
                 table.entries == old(table.entries)[hFindFile :=
                   WithFile(old(table.entries)[hFindFile], fd, ToField(found.value))]
            else !ret && table.entries == old(table.entries)
    ensures !Glob.HasWildcard(Normalized(old(table.GetFdFindPattern(hFindFile).value))) ==> !ret && closed == None
    ensures var pattern, last := old(table.GetFdFindPattern(hFindFile).value), old(table.GetFdPath(hFindFile).value);
            closed == if pattern != "" && Listable(fs, Normalized(pattern)) && last in Sort(listing)
                      then Some(if hFindFile in old(table.entries) then old(table.entries)[hFindFile].ctx.fd else -1)
                      else None
  {
    ret, cFileName, closed := false, "", None;
    var pattern := table.GetFdFindPattern(hFindFile).value;
    if pattern == "" {
      return;
    }
    var sFileName := Glob.RegexReplace(pattern, '\\', "/");
    var found, lastFound := LocateNext(fs, rx, sFileName, listing, table.GetFdPath(hFindFile).value);
    if lastFound {
      closed := Some(table.GetFd(hFindFile));
    }
    if found.Some? && lastFound && found.value in fs.present {
      table.UpdateFd(hFindFile, fd, found.value);
      ret, cFileName := true, Leaf(found.value);
    }
  }

  /** FindClose closes the record's descriptor, whether or not a FindNextFileA has closed it before. */
  method FindClose(table: Table, hFindFile: int) returns (ret: bool, closed: Option<int>)
    requires table.Valid()
    requires hFindFile in table.entries ==> table.entries[hFindFile].kind.FILE?
    modifies table
    ensures table.Valid() && table.entries == old(table.entries) - {hFindFile}
    ensures if hFindFile in old(table.entries) && old(table.entries)[hFindFile].ctx.fd != -1
            then ret && closed == Some(old(table.entries)[hFindFile].ctx.fd)
            else !ret && closed == None
  {
    var fd := table.GetFd(hFindFile);
    ret, closed := fd != -1, if fd != -1 then Some(fd) else None;
    table.Erase(hFindFile);
  }

  // ------------------------------------------------ one step of an enumeration

  /** A stored pattern is normalised already; normalising it again changes nothing. */
  lemma {:induction false} NormalizedTwice(s: string)
    ensures '\\' !in Normalized(s) && Normalized(Normalized(s)) == Normalized(s)
  {
    if s != "" {
      NormalizedTwice(s[1..]);
      var head := if s[0] == '\\' then "/" else [s[0]];
      assert Normalized(s) == head + Normalized(s[1..]);
      assert Normalized(s)[1..] == Normalized(s[1..]);
    }
  }

  /** Every path fits a handle record. */
  ghost predicate Fits(paths: seq<string>) {
    forall p | p in paths :: |p| < FIELD_SIZE && CText(p)
  }

  /** The cursor's record: an open find handle with its pattern, the path of its last hit and its descriptor. */
  ghost predicate At(table: Table, handle: int, pattern: string, path: string, fd: int)
    reads table
  {
    handle in table.entries && table.entries[handle].kind.FILE? && table.entries[handle].ctx.FileInfo? &&
    table.GetFdFindPattern(handle) == Some(pattern) && table.GetFdPath(handle) == Some(path) &&
    table.entries[handle].ctx.fd == fd
  }

  /** A pattern that names a directory which can be listed, and fits its record. */
  ghost predicate Enumerable(fs: FileSystem, s: string) {
    Listable(fs, s) && |s| < FIELD_SIZE && CText(s)
  }

  /** hits are, in order, the entries of the listed directory that the pattern s selects. */
  ghost predicate HasHits(fs: FileSystem, rx: RegexMatch, s: string, listing: seq<string>, hits: seq<string>) {
    Enumerable(fs, s) && Lists(fs, Parent(s), listing) && Fits(hits) &&
    Sorted(hits) && forall p :: p in hits <==> p in listing && HitOf(rx, Leaf(s))(p)
  }

  lemma HitsAreFilter(listing: seq<string>, hit: string -> bool, hits: seq<string>)
    requires NoDuplicates(listing) && Sorted(hits) && forall p :: p in hits <==> p in listing && hit(p)
    ensures NoDuplicates(Sort(listing)) && hits == Filter(Sort(listing), hit)
  {
    var paths := Sort(listing);
    SortSorts(listing);
    SortedHasNoDuplicates(paths);
    FilterSorted(paths, hit);
    FilterElements(paths, hit);
    forall p
      ensures p in hits <==> p in Filter(paths, hit)
    {
      assert p in paths <==> p in Elements(paths);
      assert p in listing <==> p in Elements(listing);
    }
    assert Elements(hits) == Elements(Filter(paths, hit));
    SortedUnique(hits, Filter(paths, hit));
  }

  // ------------------------------------------------ what the hits are called

  /** Paths of one directory compare like their names. */
  lemma {:induction false} CommonPrefix(p: string, a: string, b: string)
    ensures Less(p + a, p + b) <==> Less(a, b)
  {
    if p == "" {
      assert p + a == a && p + b == b;
    } else {
      assert (p + a)[1..] == p[1..] + a && (p + b)[1..] == p[1..] + b;
      CommonPrefix(p[1..], a, b);
    }
  }

  /** Everything in front of the names. */
  function Front(dir: string): string {
    if dir != "" && dir[|dir| - 1] == '/' then dir else dir + "/"
  }

  lemma JoinIsFront(dir: string, name: string)
    ensures Join(dir, name) == Front(dir) + name
  {
  }

  function Paths(dir: string, names: seq<string>): (paths: seq<string>)
    ensures |paths| == |names|
  {
    seq(|names|, i requires 0 <= i < |names| => Join(dir, names[i]))
  }

  lemma PathsSorted(dir: string, names: seq<string>)
    requires Sorted(names)
    ensures Sorted(Paths(dir, names))
  {
    hide Less, Front, Join;
    forall i, j | 0 <= i < j < |names|
      ensures Less(Paths(dir, names)[i], Paths(dir, names)[j])
    {
      JoinIsFront(dir, names[i]);
      JoinIsFront(dir, names[j]);
      CommonPrefix(Front(dir), names[i], names[j]);
    }
  }

  /** Entry names have no separator, and here no line break either. */
  ghost predicate PlainNames(names: set<string>) {
    forall n | n in names :: '/' !in n && Glob.NoLineBreaks(n)
  }

  /** all are, in order, the names in the directory that the glob denotes. */
  ghost predicate DenotedBy(glob: string, names: set<string>, all: seq<string>) {
    Sorted(all) && forall n :: n in all <==> n in names && Glob.GlobMatches(glob, n)
  }

  /** Two entries with one path have one name. */
  lemma JoinInjective(dir: string, m: string, n: string)
    requires Join(dir, m) == Join(dir, n)
    ensures m == n
  {
    JoinIsFront(dir, m);
    JoinIsFront(dir, n);
    assert (Front(dir) + m)[|Front(dir)|..] == m && (Front(dir) + n)[|Front(dir)|..] == n;
  }

  /** The sorted names that the glob denotes make the hits. */
  lemma DenotedAreHits(fs: FileSystem, rx: RegexMatch, s: string, listing: seq<string>, all: seq<string>)
    requires Understands(rx) && Enumerable(fs, s) && Glob.PlainPattern(Leaf(s)) && Lists(fs, Parent(s), listing)
    requires PlainNames(fs.dirs[Parent(s)]) && DenotedBy(Leaf(s), fs.dirs[Parent(s)], all)
    requires Fits(Paths(Parent(s), all))
    ensures HasHits(fs, rx, s, listing, Paths(Parent(s), all))
  {
    hide Understands, Join, HitOf, Leaf, Parent, Sorted, Fits, Glob.GlobMatches, Glob.PlainPattern;
    var dir, hits := Parent(s), Paths(Parent(s), all);
    PathsSorted(dir, all);
    forall p
      ensures p in hits <==> p in listing && HitOf(rx, Leaf(s))(p)
    {
      assert p in listing <==> p in Elements(listing);
      if p in hits {
        var i :| 0 <= i < |hits| && hits[i] == p;
        assert all[i] in all && p == Join(dir, all[i]);
      }
      if p in listing {
        var n :| n in fs.dirs[dir] && p == Join(dir, n);
        HitIsGlobMatch(rx, Leaf(s), dir, n);
        if n in all {
          var i :| 0 <= i < |all| && all[i] == n;
          assert hits[i] == p;
        }
        if p in hits {
          var i :| 0 <= i < |hits| && hits[i] == p;
          JoinInjective(dir, all[i], n);
        }
      }
    }
  }

  /** A hit reads back from the record it is stored in. */
  lemma HitReadsBack(fs: FileSystem, rx: RegexMatch, s: string, listing: seq<string>, hits: seq<string>, k: nat)
    requires HasHits(fs, rx, s, listing, hits) && k < |hits|
    ensures FromField(ToField(hits[k])) == Some(hits[k]) && FromField(ToField(s)) == Some(s)
  {
    assert hits[k] in hits;
    FieldReadsBack(hits[k]);
    FieldReadsBack(s);
  }

  lemma FirstPathIsFirstHit(fs: FileSystem, rx: RegexMatch, s: string, listing: seq<string>, hits: seq<string>)
    requires HasHits(fs, rx, s, listing, hits)
    ensures FirstPath(fs, rx, s, listing) == if hits == [] then None else Some(hits[0])
  {
    HitsAreFilter(listing, HitOf(rx, Leaf(s)), hits);
  }

  lemma NextPathIsNextHit(fs: FileSystem, rx: RegexMatch, s: string, listing: seq<string>, hits: seq<string>, k: nat)
    requires HasHits(fs, rx, s, listing, hits) && k < |hits|
    ensures s != "" && Listable(fs, s) && hits[k] in Sort(listing)
    ensures NextPath(fs, rx, s, listing, hits[k]) == if k + 1 < |hits| then Some(hits[k + 1]) else None
  {
    var hit, paths := HitOf(rx, Leaf(s)), Sort(listing);
    HitsAreFilter(listing, hit, hits);
    FilterElements(paths, hit);
    assert hits[k] in hits;
    RescanFindsNext(paths, hit, k);
    assert NextPath(fs, rx, s, listing, hits[k]) == NextHit(paths, hit, hits[k]);
  }

  /** FindFirstFileA with a wildcard pattern opens a cursor at the first hit, if there is one and it exists. */
  method OpenCursor(table: Table, fs: FileSystem, rx: RegexMatch, listing: seq<string>, fileName: string,
                    fd: int, rand: int, ghost hits: seq<string>)
    returns (handle: int, name: string)
    requires table.Valid() && 0 <= rand
    requires exists k :: rand <= k <= INT_MAX && k !in table.entries
    requires HasHits(fs, rx, Normalized(fileName), listing, hits)
    modifies table
    ensures table.Valid()
    ensures Upto(hits, fs.present) == 0 <==> handle == INVALID_HANDLE_VALUE
    ensures Upto(hits, fs.present) > 0 ==> name == Leaf(hits[0]) && At(table, handle, Normalized(fileName), hits[0], fd)
  {
    hide HasHits, FirstPath, Normalized, Leaf, FromField, ToField, Table.Valid;
    FirstPathIsFirstHit(fs, rx, Normalized(fileName), listing, hits);
    if hits != [] {
      HitReadsBack(fs, rx, Normalized(fileName), listing, hits, 0);
    }
    handle, name := FindFirstFileA(table, fs, rx, listing, fileName, fd, rand);
  }

  /**
   FindNextFileA moves an open cursor from one hit to the next. At the last hit, or in front
   of one that does not exist, it leaves the record alone. It closes the descriptor either way.
   */
  method MoveCursor(table: Table, fs: FileSystem, rx: RegexMatch, listing: seq<string>, handle: int, fd: int,
                    ghost s: string, ghost hits: seq<string>, ghost k: nat, ghost was: int)
    returns (more: bool, name: string, closed: Option<int>)
    requires table.Valid() && HasHits(fs, rx, s, listing, hits) && Normalized(s) == s
    requires k < Upto(hits, fs.present) && At(table, handle, s, hits[k], was)
    modifies table
    ensures table.Valid() && closed == Some(was)
    ensures if k + 1 < Upto(hits, fs.present)
            then more && name == Leaf(hits[k + 1]) && At(table, handle, s, hits[k + 1], fd)
            else !more && At(table, handle, s, hits[k], was)
  {
    hide HasHits, NextPath, Listable, Sort, Normalized, Leaf, FromField, ToField, Table.Valid;
    NextPathIsNextHit(fs, rx, s, listing, hits, k);
    if k + 1 < |hits| {
      HitReadsBack(fs, rx, s, listing, hits, k + 1);
    }
    more, name, closed := FindNextFileA(table, fs, rx, listing, handle, fd);
  }

  /**
   A caller's loop: FindFirstFileA, then FindNextFileA until it answers FALSE. listings(k) is
   the order in which the k-th call happens to see the directory, and fds(k) what open gives
   it. The caller gets the names of the hits in front of the first one that does not exist,
   each exactly once and in the order of the sorted paths. Every descriptor opened on the way
   has then been closed once, and the record still holds the last of them. The loop only
   chains the two contracts, so it needs no definition.
   */
  method FindAll(table: Table, fs: FileSystem, rx: RegexMatch, listings: nat -> seq<string>, fds: nat -> int,
                 fileName: string, rand: int, ghost hits: seq<string>)
    returns (handle: int, names: seq<string>, closes: seq<Option<int>>)
    requires table.Valid() && 0 <= rand
    requires exists k :: rand <= k <= INT_MAX && k !in table.entries
    requires forall k: nat :: HasHits(fs, rx, Normalized(fileName), listings(k), hits)
    modifies table
    ensures table.Valid()
    ensures var n := Upto(hits, fs.present);
            |names| == |closes| == n &&
            (forall i | 0 <= i < n :: names[i] == Leaf(hits[i]) && closes[i] == Some(fds(i))) &&
            (n == 0 <==> handle == INVALID_HANDLE_VALUE) &&
            (n > 0 ==> At(table, handle, Normalized(fileName), hits[n - 1], fds(n - 1)))
  {
    hide *;
    ghost var n := Upto(hits, fs.present);
    NormalizedTwice(fileName);
    var name, closed;
    handle, name := OpenCursor(table, fs, rx, listings(0), fileName, fds(0), rand, hits);
    names, closes := [], [];
    var more, k: nat := handle != INVALID_HANDLE_VALUE, 0;
    while more
      invariant table.Valid() && |names| == |closes| == k <= n
      invariant if more
                then k < n && At(table, handle, Normalized(fileName), hits[k], fds(k)) && name == Leaf(hits[k])
                else k == n && (n > 0 ==> At(table, handle, Normalized(fileName), hits[n - 1], fds(n - 1)))
      invariant forall i | 0 <= i < k :: names[i] == Leaf(hits[i]) && closes[i] == Some(fds(i))
      decreases n - k
    {
      names := names + [name];
      more, name, closed :=
        MoveCursor(table, fs, rx, listings(k + 1), handle, fds(k + 1), Normalized(fileName), hits, k, fds(k));
      closes := closes + [closed];
      k := k + 1;
    }
  }

  /**
   The same from a caller's point of view: with a plain pattern and an engine that understands
   it, the names are the ones the glob denotes, sorted, in front of the first one that does
   not exist.
   */
  method FindAllNames(table: Table, fs: FileSystem, rx: RegexMatch, listings: nat -> seq<string>, fds: nat -> int,
                      fileName: string, rand: int, ghost dir: string, ghost glob: string, ghost all: seq<string>)
    returns (names: seq<string>)
    requires table.Valid() && 0 <= rand
    requires exists k :: rand <= k <= INT_MAX && k !in table.entries
    requires Normalized(fileName) == Join(dir, glob) && NamesDirectory(fs, dir, glob)
    requires Understands(rx) && Glob.PlainPattern(glob)
    requires forall k: nat :: Lists(fs, dir, listings(k))
    requires PlainNames(fs.dirs[dir]) && DenotedBy(glob, fs.dirs[dir], all) && Fits(Paths(dir, all))
    modifies table
    ensures table.Valid()
    ensures names == all[..Upto(Paths(dir, all), fs.present)]
  {
    hide *;
    NamedIsEnumerable(fs, dir, glob);
    ghost var hits := Paths(dir, all);
    forall k: nat
      ensures HasHits(fs, rx, Join(dir, glob), listings(k), hits)
    {
      DenotedAreHits(fs, rx, Join(dir, glob), listings(k), all);
    }
    var handle, found, closes := FindAll(table, fs, rx, listings, fds, fileName, rand, hits);
    names := found;
    NamesOfPaths(fs, Join(dir, glob), all, names, Upto(hits, fs.present));
  }

  /** dir is a directory that can be listed, glob a pattern for its entries, and both fit a record. */
  ghost predicate NamesDirectory(fs: FileSystem, dir: string, glob: string) {
    DirectoryPath(dir) && dir in fs.dirs && !Glob.HasWildcard(dir) && CText(dir) &&
    '/' !in glob && Glob.HasWildcard(glob) && CText(glob) && |Join(dir, glob)| < FIELD_SIZE
  }

  lemma NamedIsEnumerable(fs: FileSystem, dir: string, glob: string)
    requires NamesDirectory(fs, dir, glob)
    ensures Enumerable(fs, Join(dir, glob)) && Parent(Join(dir, glob)) == dir && Leaf(Join(dir, glob)) == glob
  {
    hide Parent, Leaf;
    ParentOfJoin(dir, glob);
    WildcardInJoin(dir, glob);
  }

  lemma NamesOfPaths(fs: FileSystem, s: string, all: seq<string>, names: seq<string>, n: nat)
    requires Enumerable(fs, s) && PlainNames(fs.dirs[Parent(s)]) && DenotedBy(Leaf(s), fs.dirs[Parent(s)], all)
    requires |names| == n <= |all| && forall i | 0 <= i < n :: names[i] == Leaf(Paths(Parent(s), all)[i])
    ensures names == all[..n]
  {
    hide Leaf, Join, Parent, Glob.GlobMatches, Sorted;
    forall i | 0 <= i < n
      ensures names[i] == all[i]
    {
      assert all[i] in all;
      JoinSplits(Parent(s), all[i]);
    }
  }

  /**
   In the directory d with the entries a, b and c, where b is a dangling link, a star has
   three hits, and an enumeration ends behind the first.
   */
  lemma DanglingLinkHidesRest(fs: FileSystem, listing: seq<string>)
    requires fs == FileSystem(map["d" := {"a", "b", "c"}], {"d/a", "d/c"}) && Lists(fs, "d", listing)
    ensures HasHits(fs, Glob.RegexAccepts, "d/*", listing, ["d/a", "d/b", "d/c"])
    ensures Upto(["d/a", "d/b", "d/c"], fs.present) == 1
  {
    hide Leaf, Parent, Lists, HasHits, Glob.RegexAccepts, Glob.PlainPattern, Glob.HasWildcard, DenotedBy;
    var all := ["a", "b", "c"];
    StarPattern();
    StarDenotesAll(all);
    ThreePaths();
    assert fs.dirs["d"] == {"a", "b", "c"};
    DenotedAreHits(fs, Glob.RegexAccepts, "d/*", listing, all);
    assert "d/b"[2] != "d/a"[2] && "d/b"[2] != "d/c"[2];
    assert ["d/a", "d/b", "d/c"][1..][0] == "d/b";
  }

  lemma ThreePaths()
    ensures Paths("d", ["a", "b", "c"]) == ["d/a", "d/b", "d/c"]
  {
    var paths := Paths("d", ["a", "b", "c"]);
    assert Join("d", "a") == "d/a" && Join("d", "b") == "d/b" && Join("d", "c") == "d/c";
    assert paths[0] == "d/a" && paths[1] == "d/b" && paths[2] == "d/c";
  }

  lemma StarPattern()
    ensures Leaf("d/*") == "*" && Parent("d/*") == "d" && Glob.HasWildcard("d/*") && !Glob.HasWildcard("d")
    ensures Glob.PlainPattern("*") && CText("d/*")
  {
    assert Join("d", "*") == "d/*";
    JoinSplits("d", "*");
    assert LastSlash("d/*") == 1;
    assert "d/*"[..1] == "d";
    assert "d/*"[2] == '*';
  }

  lemma StarDenotesAll(all: seq<string>)
    requires all == ["a", "b", "c"]
    ensures DenotedBy("*", {"a", "b", "c"}, all)
  {
    forall n
      ensures Glob.GlobMatches("*", n)
    {
      Glob.StarMissesLineBreaks(n);
    }
    assert forall n :: n in all <==> n in {"a", "b", "c"};
  }

  /** The usual end of an enumeration: FindClose closes the last descriptor a second time. */
  method FindAllAndClose(table: Table, fs: FileSystem, rx: RegexMatch, listings: nat -> seq<string>, fds: nat -> int,
                         fileName: string, rand: int, ghost hits: seq<string>)
    returns (closes: seq<Option<int>>)
    requires table.Valid() && 0 <= rand
    requires exists k :: rand <= k <= INT_MAX && k !in table.entries
    requires forall k: nat :: HasHits(fs, rx, Normalized(fileName), listings(k), hits) && fds(k) >= 0
    modifies table
    ensures table.Valid()
    ensures var n := Upto(hits, fs.present);
            if n == 0 then closes == []
            else |closes| == n + 1 && (forall i | 0 <= i < n :: closes[i] == Some(fds(i))) && closes[n] == closes[n - 1]
  {
    hide HasHits, Upto, Normalized, Leaf, FromField, Table.Valid;
    var handle, names, all := FindAll(table, fs, rx, listings, fds, fileName, rand, hits);
    closes := all;
    if handle != INVALID_HANDLE_VALUE {
      var ret, closed := FindClose(table, handle);
      closes := closes + [closed];
    }
  }
}
