/**
 * `SessionManager` of the wingallery package: the selected folders are kept
 * in a text file, one path per line. The file is a value here (`None` when
 * there is none); which paths exist and which are directories are
 * parameters standing for the file system.
 */
module Session {
  import Seqs
  import opened Wrappers
  import opened Text

  /** The file system as the session manager queries it. */
  type PathTest = string -> bool

  /** `BufferedWriter.newLine`: the platform's line separator. */
  predicate IsLineSeparator(nl: string) {
    nl == "\n" || nl == "\r\n"
  }

  predicate IsLineBreak(c: char) {
    c == '\n' || c == '\r'
  }

  predicate HasLineBreak(s: string) {
    exists i :: 0 <= i < |s| && IsLineBreak(s[i])
  }

  /** The paths that pass `keep`, in order. */
  function Filter(paths: seq<string>, keep: PathTest): (r: seq<string>)
    ensures |r| <= |paths|
    ensures forall i :: 0 <= i < |r| ==> keep(r[i])
  {
    if paths == [] then []
    else (if keep(paths[0]) then [paths[0]] else []) + Filter(paths[1..], keep)
  }

  /** Each line followed by the separator. */
  function Join(lines: seq<string>, nl: string): (r: string)
    ensures nl != [] ==> (r == [] <==> lines == [])
  {
    if lines == [] then [] else lines[0] + nl + Join(lines[1..], nl)
  }

  /**
   * `saveSession`: the new content of the session file, given the set's
   * iteration order. Every path that still exists is written on its own
   * line; the others are dropped.
   */
  function SaveSession(paths: seq<string>, exists_: PathTest, nl: string): (file: string)
    requires IsLineSeparator(nl)
    ensures file == Join(Filter(paths, exists_), nl)
  {
    if paths == [] then []
    else
      var rest := SaveSession(paths[1..], exists_, nl);
      if exists_(paths[0]) then
        assert ([paths[0]] + Filter(paths[1..], exists_))[1..] == Filter(paths[1..], exists_);
        paths[0] + nl + rest
      else
        assert Filter(paths, exists_) == Filter(paths[1..], exists_);
        rest
  }

  /** Where the first line of `s` ends: the first line break, or the end of `s`. */
  function LineEnd(s: string): (i: nat)
    ensures i <= |s|
    ensures forall j :: 0 <= j < i ==> !IsLineBreak(s[j])
    ensures i < |s| ==> IsLineBreak(s[i])
  {
    if s == [] || IsLineBreak(s[0]) then 0 else 1 + LineEnd(s[1..])
  }

  /**
   * Repeated `BufferedReader.readLine`: lines end at `\n`, at `\r`, or at
   * `\r\n`; a final line without a terminator still counts, and an empty
   * input has no lines.
   */
  function ReadLines(s: string): (r: seq<string>)
    ensures forall i :: 0 <= i < |r| ==> !HasLineBreak(r[i])
    ensures s == [] <==> r == []
    decreases |s|
  {
    if s == [] then []
    else
      var i := LineEnd(s);
      var rest :=
        if i == |s| then []
        else if s[i] == '\r' && i + 1 < |s| && s[i + 1] == '\n' then s[i + 2..]
        else s[i + 1..];
      [s[..i]] + ReadLines(rest)
  }

  /** Reading a line followed by a separator yields that line, then the rest. */
  lemma ReadLinesCons(l: string, nl: string, rest: string)
    requires IsLineSeparator(nl) && !HasLineBreak(l)
    ensures ReadLines(l + nl + rest) == [l] + ReadLines(rest)
  {
    var s := l + nl + rest;
    assert s == l + (nl + rest);
    LineEndOfLine(l, nl + rest);
    assert s[..|l|] == l;
    if nl == "\n" {
      assert s[|l| + 1..] == rest;
    } else {
      assert s[|l|] == '\r' && s[|l| + 1] == '\n';
      assert s[|l| + 2..] == rest;
    }
  }

  /** The lines that `saveSession` wrote are the lines `loadSession` reads. */
  lemma {:induction false} ReadLinesOfJoin(lines: seq<string>, nl: string)
    requires IsLineSeparator(nl)
    requires forall i :: 0 <= i < |lines| ==> !HasLineBreak(lines[i])
    ensures ReadLines(Join(lines, nl)) == lines
  {
    if lines != [] {
      ReadLinesCons(lines[0], nl, Join(lines[1..], nl));
      ReadLinesOfJoin(lines[1..], nl);
    }
  }

  /** A line without breaks, followed by a break, ends just before it. */
  lemma {:induction false} LineEndOfLine(l: string, tail: string)
    requires !HasLineBreak(l)
    requires tail != [] && IsLineBreak(tail[0])
    ensures LineEnd(l + tail) == |l|
  {
    if l != [] {
      assert (l + tail)[1..] == l[1..] + tail;
      assert !HasLineBreak(l[1..]) by {
        assert forall j :: 0 <= j < |l[1..]| ==> l[1..][j] == l[j + 1];
      }
      LineEndOfLine(l[1..], tail);
    } else {
      assert l + tail == tail;
    }
  }

  /** `LinkedHashSet.add`: a new element goes to the end, a known one changes nothing. */
  function Add(set_: seq<string>, p: string): (r: seq<string>)
    ensures p in r
    ensures p in set_ ==> r == set_
    ensures p !in set_ ==> r == set_ + [p]
    ensures Distinct(set_) ==> Distinct(r)
    ensures |set_| <= |r| && r[..|set_|] == set_
  {
    if p in set_ then set_ else set_ + [p]
  }

  /** The lines that `loadSession` keeps: non-blank once trimmed, and an existing directory. */
  predicate Restorable(line: string, exists_: PathTest, isDir: PathTest) {
    line != [] && exists_(line) && isDir(line)
  }

  predicate Distinct(s: seq<string>) {
    forall i, j :: 0 <= i < j < |s| ==> s[i] != s[j]
  }

  /** The test `loadSession` applies to each trimmed line. */
  function Restorer(exists_: PathTest, isDir: PathTest): PathTest {
    p => Restorable(p, exists_, isDir)
  }

  /** The body of the reading loop, applied to the remaining lines. */
  function LoadLines(lines: seq<string>, acc: seq<string>, exists_: PathTest, isDir: PathTest): (r: seq<string>)
    requires Distinct(acc)
    ensures Distinct(r)
    ensures |acc| <= |r| && r[..|acc|] == acc
  {
    if lines == [] then acc
    else
      var line := Trim(lines[0]);
      var acc' := if Restorable(line, exists_, isDir) then Add(acc, line) else acc;
      var r := LoadLines(lines[1..], acc', exists_, isDir);
      Seqs.PrefixOfPrefix(r, acc', acc);
      r
  }

  /** `p` is the trim of one of the lines and passes the restore test. */
  predicate FromSomeLine(p: string, lines: seq<string>, exists_: PathTest, isDir: PathTest) {
    exists l :: l in lines && p == Trim(l) && Restorable(p, exists_, isDir)
  }

  lemma FromSomeLineCons(p: string, lines: seq<string>, exists_: PathTest, isDir: PathTest)
    requires lines != []
    ensures FromSomeLine(p, lines, exists_, isDir) <==>
            (p == Trim(lines[0]) && Restorable(p, exists_, isDir)) || FromSomeLine(p, lines[1..], exists_, isDir)
  {
    if FromSomeLine(p, lines, exists_, isDir) {
      var l :| l in lines && p == Trim(l) && Restorable(p, exists_, isDir);
      if l != lines[0] {
        assert l in lines[1..];
      }
    }
    if FromSomeLine(p, lines[1..], exists_, isDir) {
      var l :| l in lines[1..] && p == Trim(l) && Restorable(p, exists_, isDir);
      assert l in lines;
    }
  }

  /** What the reading loop collects: the earlier ones and every restorable trimmed line. */
  lemma {:induction false} LoadLinesMembers(lines: seq<string>, acc: seq<string>, exists_: PathTest, isDir: PathTest, p: string)
    requires Distinct(acc)
    ensures p in LoadLines(lines, acc, exists_, isDir) <==> p in acc || FromSomeLine(p, lines, exists_, isDir)
  {
    if lines != [] {
      var line := Trim(lines[0]);
      var acc' := if Restorable(line, exists_, isDir) then Add(acc, line) else acc;
      LoadLinesMembers(lines[1..], acc', exists_, isDir, p);
      assert LoadLines(lines, acc, exists_, isDir) == LoadLines(lines[1..], acc', exists_, isDir);
      FromSomeLineCons(p, lines, exists_, isDir);
      if Restorable(line, exists_, isDir) {
        AddMembers(acc, line, p);
      }
    }
  }

  lemma AddMembers(set_: seq<string>, p: string, q: string)
    ensures q in Add(set_, p) <==> q in set_ || q == p
  {
  }

  // ---- first-occurrence order, stated apart from the loop ----

  /** The trim of every line, in order. */
  function TrimAll(lines: seq<string>): (r: seq<string>)
    ensures |r| == |lines|
  {
    if lines == [] then [] else [Trim(lines[0])] + TrimAll(lines[1..])
  }

  /** The elements of `s` that are not in `drop`, in order. */
  function Without(s: seq<string>, drop: seq<string>): (r: seq<string>)
    ensures |r| <= |s|
    ensures forall p :: p in r <==> p in s && p !in drop
  {
    if s == [] then []
    else
      var rest := Without(s[1..], drop);
      assert forall p :: p in s <==> p == s[0] || p in s[1..];
      (if s[0] in drop then [] else [s[0]]) + rest
  }

  /**
   * A reference de-duplication: keep the first element, drop its later
   * copies, and go on with what is left. Each element stays at its first
   * occurrence.
   */
  function Dedup(s: seq<string>): (r: seq<string>)
    ensures Distinct(r)
    ensures forall p :: p in r <==> p in s
    decreases |s|
  {
    if s == [] then []
    else
      var rest := Dedup(Without(s[1..], [s[0]]));
      assert s[0] !in rest;
      assert forall p :: p in s <==> p == s[0] || p in s[1..];
      [s[0]] + rest
  }

  lemma {:induction false} WithoutWithout(s: seq<string>, drop: seq<string>, x: string)
    ensures Without(Without(s, drop), [x]) == Without(s, drop + [x])
  {
    if s != [] {
      WithoutWithout(s[1..], drop, x);
      var w := Without(s[1..], drop);
      assert s[0] in drop + [x] <==> s[0] in drop || s[0] == x;
      assert Without(s, drop + [x]) == (if s[0] in drop + [x] then [] else [s[0]]) + Without(s[1..], drop + [x]);
      if s[0] in drop {
        assert Without(s, drop) == w;
      } else {
        assert Without(s, drop) == [s[0]] + w;
        assert ([s[0]] + w)[1..] == w;
      }
    }
  }

  lemma {:induction false} WithoutNothing(s: seq<string>)
    ensures Without(s, []) == s
  {
    if s != [] {
      WithoutNothing(s[1..]);
    }
  }

  /** A new element heads the de-duplication, and its later copies are gone from the rest. */
  lemma DedupNew(x: string, t: seq<string>, acc: seq<string>)
    requires x !in acc
    ensures Dedup(Without([x] + t, acc)) == [x] + Dedup(Without(t, acc + [x]))
  {
    assert ([x] + t)[1..] == t;
    var w := Without(t, acc);
    assert Without([x] + t, acc) == [x] + w;
    assert ([x] + w)[1..] == w;
    WithoutWithout(t, acc, x);
  }

  /** An element already held contributes nothing. */
  lemma WithoutHeld(x: string, t: seq<string>, acc: seq<string>)
    requires x in acc
    ensures Without([x] + t, acc) == Without(t, acc)
  {
    assert ([x] + t)[1..] == t;
  }

  lemma FilterTrimAllCons(lines: seq<string>, keep: PathTest)
    requires lines != []
    ensures Filter(TrimAll(lines), keep)
            == (if keep(Trim(lines[0])) then [Trim(lines[0])] else []) + Filter(TrimAll(lines[1..]), keep)
  {
    assert TrimAll(lines) == [Trim(lines[0])] + TrimAll(lines[1..]);
    assert TrimAll(lines)[1..] == TrimAll(lines[1..]);
  }

  /**
   * The reading loop collects, after what it already holds, the restorable
   * trimmed lines it does not hold yet, each once, at its first occurrence.
   */
  lemma {:induction false} LoadLinesIsDedup(lines: seq<string>, acc: seq<string>, exists_: PathTest, isDir: PathTest)
    requires Distinct(acc)
    ensures LoadLines(lines, acc, exists_, isDir)
            == acc + Dedup(Without(Filter(TrimAll(lines), Restorer(exists_, isDir)), acc))
  {
    var keep := Restorer(exists_, isDir);
    if lines == [] {
      assert acc + [] == acc;
    } else {
      var line := Trim(lines[0]);
      var rest := lines[1..];
      var t := Filter(TrimAll(rest), keep);
      FilterTrimAllCons(lines, keep);
      assert keep(line) == Restorable(line, exists_, isDir);
      var acc' := if Restorable(line, exists_, isDir) then Add(acc, line) else acc;
      assert LoadLines(lines, acc, exists_, isDir) == LoadLines(rest, acc', exists_, isDir);
      LoadLinesIsDedup(rest, acc', exists_, isDir);
      if !keep(line) {
        assert Filter(TrimAll(lines), keep) == t;
      } else if line in acc {
        assert Filter(TrimAll(lines), keep) == [line] + t;
        WithoutHeld(line, t, acc);
      } else {
        assert Filter(TrimAll(lines), keep) == [line] + t;
        DedupNew(line, t, acc);
        Seqs.Associative(acc, [line], Dedup(Without(t, acc + [line])));
      }
    }
  }

  /**
   * `loadSession`: no file gives no folders; otherwise the trimmed,
   * non-blank lines that name existing directories, each once, in the order
   * of their first appearance.
   */
  function LoadSession(file: Option<string>, exists_: PathTest, isDir: PathTest): (r: seq<string>)
    ensures Distinct(r)
    ensures file.None? ==> r == []
    ensures file.Some? ==> forall p :: p in r <==> FromSomeLine(p, ReadLines(file.value), exists_, isDir)
    ensures file.Some? ==> r == Dedup(Filter(TrimAll(ReadLines(file.value)), Restorer(exists_, isDir)))
  {
    match file
    case None => []
    case Some(content) =>
      forall p | true
        ensures p in LoadLines(ReadLines(content), [], exists_, isDir) <==> FromSomeLine(p, ReadLines(content), exists_, isDir)
      {
        LoadLinesMembers(ReadLines(content), [], exists_, isDir, p);
      }
      LoadLinesIsDedup(ReadLines(content), [], exists_, isDir);
      WithoutNothing(Filter(TrimAll(ReadLines(content)), Restorer(exists_, isDir)));
      LoadLines(ReadLines(content), [], exists_, isDir)
  }

  /**
   * A path written twice, the second time with a leading blank, is restored
   * once, in the place of its first line.
   */
  lemma RepeatedPathKeepsFirstPlace(exists_: PathTest, isDir: PathTest)
    requires exists_("/a") && isDir("/a") && exists_("/b") && isDir("/b")
    ensures LoadSession(Some(Join(["/b", "/a", " /b"], "\n")), exists_, isDir) == ["/b", "/a"]
  {
    var lines := ["/b", "/a", " /b"];
    var trimmed := ["/b", "/a", "/b"];
    ExampleLines();
    ExampleTrims(lines, TrimAll(lines));
    var keep := Restorer(exists_, isDir);
    assert keep("/a") && keep("/b");
    assert Filter(trimmed, keep) == trimmed;
    DedupRepeat();
  }

  lemma ExampleLines()
    ensures ReadLines(Join(["/b", "/a", " /b"], "\n")) == ["/b", "/a", " /b"]
  {
    var lines := ["/b", "/a", " /b"];
    forall i | 0 <= i < |lines|
      ensures !HasLineBreak(lines[i])
    {
      assert forall j :: 0 <= j < |lines[i]| ==> !IsLineBreak(lines[i][j]);
    }
    ReadLinesOfJoin(lines, "\n");
  }

  lemma ExampleTrims(lines: seq<string>, t: seq<string>)
    requires lines == ["/b", "/a", " /b"] && t == TrimAll(lines)
    ensures t == ["/b", "/a", "/b"]
  {
    TrimAll3(lines[0], lines[1], lines[2]);
    assert lines == [lines[0], lines[1], lines[2]];
    TrimFixedPoint(lines[0]);
    TrimFixedPoint(lines[1]);
    BlankThenB(lines[2]);
  }

  lemma TrimAllCons(x: string, rest: seq<string>)
    ensures TrimAll([x] + rest) == [Trim(x)] + TrimAll(rest)
  {
    assert ([x] + rest)[1..] == rest;
  }

  lemma TrimAll3(a: string, b: string, c: string)
    ensures TrimAll([a, b, c]) == [Trim(a), Trim(b), Trim(c)]
  {
    Three(a, b, c);
    TrimAllCons(a, [b] + ([c] + []));
    TrimAllCons(b, [c] + []);
    TrimAllCons(c, []);
    Three(Trim(a), Trim(b), Trim(c));
  }

  lemma Three<T>(a: T, b: T, c: T)
    ensures [a] + ([b] + ([c] + [])) == [a, b, c]
  {
  }

  lemma BlankThenB(x: string)
    requires x == " /b"
    ensures Trim(x) == "/b"
  {
    assert x == [' '] + "/b";
    TrimFixedPoint("/b");
    TrimLeadingBlank("/b");
  }

  lemma TrimLeadingBlank(p: string)
    ensures Trim([' '] + p) == Trim(p)
  {
    var s := [' '] + p;
    assert s[1..] == p;
    assert TrimStart(s) == TrimStart(p);
  }

  lemma DedupRepeat()
    ensures Dedup(["/b", "/a", "/b"]) == ["/b", "/a"]
  {
    assert ["/b", "/a", "/b"][1..] == ["/a", "/b"];
    assert Without(["/a", "/b"], ["/b"]) == ["/a"];
    assert Dedup(["/a"]) == ["/a"];
  }

  /** `clearSession`: the file is gone. */
  function ClearSession(file: Option<string>): (r: Option<string>)
    ensures r.None?
  {
    None
  }

  /** After clearing, nothing is restored. */
  lemma ClearThenLoad(file: Option<string>, exists_: PathTest, isDir: PathTest)
    ensures LoadSession(ClearSession(file), exists_, isDir) == []
  {
  }

  /** A path as `saveSession` can write it back faithfully: one line, nothing to trim. */
  predicate Storable(p: string) {
    !HasLineBreak(p) && IsTrimmed(p)
  }

  /** Every line is its own trim. */
  predicate AllTrimmed(lines: seq<string>) {
    forall i :: 0 <= i < |lines| ==> IsTrimmed(lines[i])
  }

  /** Nothing for `String.trim` to strip: no trimmable character at either end. */
  predicate IsTrimmed(p: string) {
    p != [] ==> !IsTrimmable(p[0]) && !IsTrimmable(p[|p| - 1])
  }

  /** No line is among the collected ones. */
  predicate NoneIn(lines: seq<string>, acc: seq<string>) {
    forall i :: 0 <= i < |lines| ==> lines[i] !in acc
  }

  /** The loop's preconditions carry over to the remaining lines once the first is collected (or not). */
  lemma TailConditions(lines: seq<string>, acc: seq<string>, keep: bool)
    requires lines != []
    requires Distinct(acc) && Distinct(lines)
    requires AllTrimmed(lines) && NoneIn(lines, acc)
    ensures var acc' := if keep then acc + [lines[0]] else acc;
            && Distinct(acc') && Distinct(lines[1..])
            && AllTrimmed(lines[1..]) && NoneIn(lines[1..], acc')
  {
    var acc' := if keep then acc + [lines[0]] else acc;
    var rest := lines[1..];
    assert lines[0] !in acc;
    assert Distinct(acc');
    assert AllTrimmed(rest) by {
      forall i | 0 <= i < |rest| ensures IsTrimmed(rest[i]) {
        assert rest[i] == lines[i + 1];
      }
    }
    assert NoneIn(rest, acc') by {
      forall i | 0 <= i < |rest| ensures rest[i] !in acc' {
        assert rest[i] == lines[i + 1];
        assert lines[i + 1] != lines[0];
      }
    }
  }

  /** Distinct trimmed lines, none already collected, are collected in order if restorable. */
  lemma {:induction false} LoadLinesOfDistinct(lines: seq<string>, acc: seq<string>, exists_: PathTest, isDir: PathTest)
    requires Distinct(acc) && Distinct(lines)
    requires AllTrimmed(lines) && NoneIn(lines, acc)
    ensures LoadLines(lines, acc, exists_, isDir) == acc + Filter(lines, Restorer(exists_, isDir))
  {
    if lines != [] {
      var line := lines[0];
      var keep := Restorable(line, exists_, isDir);
      TailConditions(lines, acc, keep);
      var acc' := if keep then acc + [line] else acc;
      var rest := lines[1..];
      TrimFixedPoint(line);
      LoadLinesOfDistinct(rest, acc', exists_, isDir);
      assert LoadLines(lines, acc, exists_, isDir) == LoadLines(rest, acc', exists_, isDir);
      var f := Filter(rest, Restorer(exists_, isDir));
      if keep {
        assert Filter(lines, Restorer(exists_, isDir)) == [line] + f;
        Seqs.Associative(acc, [line], f);
      } else {
        assert Filter(lines, Restorer(exists_, isDir)) == f;
      }
    }
  }

  /**
   * Save then load round trip: a set of distinct, storable paths comes
   * back as exactly those that still exist and are directories, in the
   * order they were written.
   */
  lemma SaveThenLoad(paths: seq<string>, exists_: PathTest, isDir: PathTest, nl: string)
    requires IsLineSeparator(nl)
    requires Distinct(paths)
    requires forall i :: 0 <= i < |paths| ==> Storable(paths[i])
    ensures LoadSession(Some(SaveSession(paths, exists_, nl)), exists_, isDir) == Filter(paths, Restorer(exists_, isDir))
  {
    var saved := Filter(paths, exists_);
    FilterKeepsDistinct(paths, exists_);
    FilterKeepsStorable(paths, exists_);
    assert AllTrimmed(saved) && NoneIn(saved, []);
    ReadLinesOfJoin(saved, nl);
    var file := SaveSession(paths, exists_, nl);
    assert ReadLines(file) == saved;
    assert LoadSession(Some(file), exists_, isDir) == LoadLines(saved, [], exists_, isDir);
    LoadLinesOfDistinct(saved, [], exists_, isDir);
    assert [] + Filter(saved, Restorer(exists_, isDir)) == Filter(saved, Restorer(exists_, isDir));
    FilterNarrower(paths, exists_, Restorer(exists_, isDir));
  }

  lemma {:induction false} FilterKeepsStorable(paths: seq<string>, keep: PathTest)
    requires forall i :: 0 <= i < |paths| ==> Storable(paths[i])
    ensures forall i :: 0 <= i < |Filter(paths, keep)| ==> Storable(Filter(paths, keep)[i])
  {
    if paths != [] {
      assert forall i :: 0 <= i < |paths[1..]| ==> paths[1..][i] == paths[i + 1];
      FilterKeepsStorable(paths[1..], keep);
    }
  }

  /** Filtering keeps exactly the elements that pass the test. */
  lemma {:induction false} FilterMembers(paths: seq<string>, keep: PathTest)
    ensures forall p :: p in Filter(paths, keep) <==> p in paths && keep(p)
  {
    if paths != [] {
      FilterMembers(paths[1..], keep);
      assert paths == [paths[0]] + paths[1..];
    }
  }

  lemma {:induction false} FilterKeepsDistinct(paths: seq<string>, keep: PathTest)
    requires Distinct(paths)
    ensures Distinct(Filter(paths, keep))
  {
    if paths != [] {
      FilterKeepsDistinct(paths[1..], keep);
      FilterMembers(paths[1..], keep);
      assert paths[0] !in paths[1..];
    }
  }

  /** Filtering by a test that implies the first one undoes nothing the first one kept. */
  lemma {:induction false} FilterNarrower(paths: seq<string>, first: PathTest, second: PathTest)
    requires forall p :: second(p) ==> first(p)
    ensures Filter(Filter(paths, first), second) == Filter(paths, second)
  {
    if paths != [] {
      FilterNarrower(paths[1..], first, second);
      assert second(paths[0]) ==> first(paths[0]);
      var rest := Filter(paths[1..], first);
      if first(paths[0]) {
        assert Filter(paths, first) == [paths[0]] + rest;
        assert ([paths[0]] + rest)[1..] == rest;
      } else {
        assert Filter(paths, first) == rest;
        assert Filter(paths, second) == Filter(paths[1..], second);
      }
    }
  }
}
