/** Reading host files that include each other: src/pdsh/wcoll.c. */
module Wcoll {
  import opened Expansion
  import opened Hostlist
  import opened HostlistParse
  import opened Options
  import opened Sequences

  /** The readable files, by path and with the lines that fgets gives, and the
      directories that are searched. */
  datatype World = World(files: map<string, seq<string>>, path: seq<string>)

  // ---- One line

  predicate IsBlank(c: char) {
    c == ' ' || c == '\t'
  }

  predicate IsWordSep(c: char) {
    c == '\n' || c == '\r' || IsBlank(c)
  }

  /** What strtok takes off, one after the other. */
  function Words(s: string): seq<string>
    decreases |s|
  {
    if s == "" then []
    else if IsWordSep(s[0]) then Words(s[1..])
    else
      var n := WordLength(s);
      [s[..n]] + Words(s[n..])
  }

  function WordLength(s: string): (n: nat)
    ensures n <= |s| && (s != "" && !IsWordSep(s[0]) ==> n > 0)
  {
    if s == "" || IsWordSep(s[0]) then 0 else 1 + WordLength(s[1..])
  }

  /** include_file: what a line asks to be included, if it is one name. */
  function IncludeFile(line: string): Option<string> {
    if !("#include" <= line) then None
    else
      var words := Words(line[|"#include"|..]);
      if |words| == 1 then Some(words[0]) else None
  }

  lemma {:induction false} WordLengthOf(w: string, s: string)
    requires (forall i :: 0 <= i < |w| ==> !IsWordSep(w[i])) && (s == "" || IsWordSep(s[0]))
    ensures WordLength(w + s) == |w|
  {
    if w == "" {
      assert w + s == s;
    } else {
      assert (w + s)[1..] == w[1..] + s;
      WordLengthOf(w[1..], s);
    }
  }

  predicate IsTrimmed(c: char) {
    c == '\n' || IsBlank(c)
  }

  /** xstrcln */
  function Trim(s: string): string
    decreases |s|
  {
    if s == "" then ""
    else if IsTrimmed(s[0]) then Trim(s[1..])
    else if IsTrimmed(s[|s| - 1]) then Trim(s[..|s| - 1])
    else s
  }

  function FirstWith(dirs: seq<string>, files: map<string, seq<string>>, name: string): Option<string> {
    if dirs == [] then None
    else if dirs[0] + "/" + name in files then Some(dirs[0] + "/" + name)
    else FirstWith(dirs[1..], files, name)
  }

  /** A path from the root or from here is not searched for. */
  predicate IsPath(file: string) {
    "/" <= file || "./" <= file || "../" <= file
  }

  /** wcoll_ctx_resolve_path */
  function Resolve(w: World, file: string): Option<string> {
    if IsPath(file) then Some(file) else FirstWith(w.path, w.files, file)
  }

  /** The file that a line includes; `None` if it includes none. */
  function Included(line: string): Option<string> {
    if StrChr(line, '#') == 0 then IncludeFile(line) else None
  }

  /** Nothing need stand between the word and the name: what follows it is read
      the same with a blank in between. */
  lemma BlankIsOptional(rest: string)
    ensures Included("#include" + rest) == Included("#include " + rest)
  {
    var a, b := "#include" + rest, "#include " + rest;
    assert "#include" <= a && a[|"#include"|..] == rest;
    assert "#include" <= b && b[|"#include"|..] == [' '] + rest && ([' '] + rest)[1..] == rest;
    assert StrChr(a, '#') == 0 && StrChr(b, '#') == 0;
  }

  predicate AllSeps(s: string) {
    forall i :: 0 <= i < |s| ==> IsWordSep(s[i])
  }

  predicate NoSeps(s: string) {
    forall i :: 0 <= i < |s| ==> !IsWordSep(s[i])
  }

  /** `f` is the one word of a text. */
  ghost predicate OneWord(s: string, f: string) {
    f != "" && NoSeps(f) && exists a, b :: s == a + f + b && AllSeps(a) && AllSeps(b)
  }

  lemma {:induction false} WordsNone(s: string)
    ensures Words(s) == [] <==> AllSeps(s)
  {
    if s != "" && IsWordSep(s[0]) {
      WordsNone(s[1..]);
      assert s == [s[0]] + s[1..];
    }
  }

  lemma {:induction false} WordsOfOne(a: string, f: string, b: string)
    requires f != "" && NoSeps(f) && AllSeps(a) && AllSeps(b)
    ensures Words(a + f + b) == [f]
  {
    var s := a + f + b;
    if a != "" {
      assert s[1..] == a[1..] + f + b;
      WordsOfOne(a[1..], f, b);
    } else {
      assert s == f + b;
      WordLengthOf(f, b);
      assert s[..|f|] == f && s[|f|..] == b;
      WordsNone(b);
    }
  }

  lemma {:induction false} WordSpan(s: string)
    ensures NoSeps(s[..WordLength(s)]) && (WordLength(s) < |s| ==> IsWordSep(s[WordLength(s)]))
  {
    if s != "" && !IsWordSep(s[0]) {
      WordSpan(s[1..]);
      assert s[..WordLength(s)] == [s[0]] + s[1..][..WordLength(s) - 1];
    }
  }

  lemma {:induction false} OneOfWords(s: string) returns (a: string, b: string)
    requires |Words(s)| == 1
    ensures var f := Words(s)[0]; f != "" && NoSeps(f) && s == a + f + b && AllSeps(a) && AllSeps(b)
    decreases |s|
  {
    if IsWordSep(s[0]) {
      a, b := OneOfWords(s[1..]);
      a := [s[0]] + a;
      assert s == [s[0]] + s[1..];
    } else {
      var n := WordLength(s);
      a, b := "", s[n..];
      WordSpan(s);
      WordsNone(b);
      assert s == "" + s[..n] + s[n..];
    }
  }

  /** A line includes a file exactly if it is `#include` and the name, which has no
      blanks, with nothing but blanks in front of the name and behind it. */
  lemma IncludedIs(line: string, f: string)
    ensures Included(line) == Some(f) <==> "#include" <= line && OneWord(line[|"#include"|..], f)
  {
    hide Words;
    if "#include" <= line {
      var s := line[|"#include"|..];
      assert line[0] == "#include"[0];
      assert StrChr(line, '#') == 0;
      if |Words(s)| == 1 {
        var a, b := OneOfWords(s);
        assert OneWord(s, Words(s)[0]);
      }
      if OneWord(s, f) {
        var a, b :| s == a + f + b && AllSeps(a) && AllSeps(b);
        WordsOfOne(a, f, b);
      }
    }
  }

  /** So `#includefoo` includes the file foo. */
  lemma IncludeFoo()
    ensures Included("#includefoo\n") == Some("foo")
  {
    var line := "#includefoo\n";
    assert line[|"#include"|..] == "" + "foo" + "\n";
    assert AllSeps("") && AllSeps("\n");
    IncludedIs(line, "foo");
  }

  /** The directory number `i` of the path is the first one that has the file. */
  predicate FirstIn(w: World, i: nat, file: string) {
    i < |w.path| && w.path[i] + "/" + file in w.files && forall j :: 0 <= j < i ==> w.path[j] + "/" + file !in w.files
  }

  lemma {:induction false} FirstWithIs(w: World, i: nat, file: string)
    requires i <= |w.path| && forall j :: 0 <= j < i ==> w.path[j] + "/" + file !in w.files
    ensures var r := FirstWith(w.path[i..], w.files, file);
      if r.None? then forall j :: 0 <= j < |w.path| ==> w.path[j] + "/" + file !in w.files
      else exists j: nat :: FirstIn(w, j, file) && r.value == w.path[j] + "/" + file
    decreases |w.path| - i
  {
    if i < |w.path| {
      assert w.path[i..][1..] == w.path[i + 1..];
      if w.path[i] + "/" + file in w.files {
        assert FirstIn(w, i, file);
      } else {
        FirstWithIs(w, i + 1, file);
      }
    }
  }

  /** A name is looked for in one directory after the other; a path that begins with
      a slash, or with one or two dots and a slash, is taken as it is. */
  lemma ResolvedIs(w: World, file: string, p: string)
    ensures Resolve(w, file) == Some(p) <==>
      if (exists c :: file == "/" + c || file == "./" + c || file == "../" + c) then p == file
      else exists i: nat :: FirstIn(w, i, file) && p == w.path[i] + "/" + file
  {
    PathIs(file);
    if !IsPath(file) {
      assert w.path[0..] == w.path;
      FirstWithIs(w, 0, file);
    }
  }

  lemma PathIs(file: string)
    ensures IsPath(file) <==> exists c :: file == "/" + c || file == "./" + c || file == "../" + c
  {
    if "/" <= file {
      assert file == "/" + file[1..];
    } else if "./" <= file {
      assert file == "./" + file[2..];
    } else if "../" <= file {
      assert file == "../" + file[3..];
    }
  }

  /** The hosts that are on the line itself, before a comment. */
  function OwnHosts(line: string): seq<string> {
    var h := StrChr(line, '#');
    var text := Trim(if h >= 0 then line[..h] else line);
    if text == "" then [] else OrNone(Read(text))
  }

  // ---- What a line means

  ghost predicate AllTrimmed(s: string) {
    forall i :: 0 <= i < |s| ==> IsTrimmed(s[i])
  }

  /** `text` is what a string is but for blanks at its ends. */
  ghost predicate StripsTo(s: string, text: string) {
    exists a, b :: Between(s, a, text, b)
  }

  ghost predicate Between(s: string, a: string, text: string, b: string) {
    && s == a + text + b && AllTrimmed(a) && AllTrimmed(b)
    && (text != "" ==> !IsTrimmed(text[0]) && !IsTrimmed(text[|text| - 1]))
  }

  lemma {:induction false} TrimStrips(s: string) returns (a: string, b: string)
    ensures Between(s, a, Trim(s), b)
    decreases |s|
  {
    a, b := "", "";
    if s == "" {
    } else if IsTrimmed(s[0]) {
      a, b := TrimStrips(s[1..]);
      assert s == [s[0]] + s[1..];
      a := [s[0]] + a;
    } else if IsTrimmed(s[|s| - 1]) {
      var n := |s| - 1;
      a, b := TrimStrips(s[..n]);
      assert s == s[..n] + [s[n]];
      b := b + [s[n]];
    } else {
      assert s == "" + s + "";
    }
  }

  lemma {:induction false} TrimOf(a: string, text: string, b: string)
    requires AllTrimmed(a) && AllTrimmed(b)
    requires text != "" ==> !IsTrimmed(text[0]) && !IsTrimmed(text[|text| - 1])
    ensures Trim(a + text + b) == text
    decreases |a| + |b|
  {
    var s := a + text + b;
    if a != "" {
      assert s[0] == a[0] && s[1..] == a[1..] + text + b;
      TrimOf(a[1..], text, b);
    } else if b != "" {
      if text == "" {
        assert s[0] == b[0] && s[1..] == "" + text + b[1..];
        TrimOf("", text, b[1..]);
      } else {
        var n := |b| - 1;
        assert s[0] == text[0] && s[|s| - 1] == b[n] && s[..|s| - 1] == a + text + b[..n];
        TrimOf(a, text, b[..n]);
      }
    } else {
      assert s == text;
    }
  }

  /** The line up to its first `#`, or all of it. */
  predicate Uncommented(line: string, n: nat) {
    n <= |line| && (forall i :: 0 <= i < n ==> line[i] != '#') && (n < |line| ==> line[n] == '#')
  }

  /** The names that a line gives: those that the text before a comment is read as,
      without the blanks around it; none if there is no text, or no list. */
  ghost predicate Gives(line: string, names: seq<string>) {
    exists n: nat, text: string ::
      Uncommented(line, n) && StripsTo(line[..n], text) && ReadsAsNames(text, names)
  }

  predicate ReadsAsNames(text: string, names: seq<string>) {
    names == if text == "" || Read(text).Failed? then [] else Read(text).value
  }

  lemma OwnHostsAre(line: string, names: seq<string>)
    ensures Gives(line, names) <==> names == OwnHosts(line)
  {
    hide Read, Trim, Between;
    var n := Comment(line);
    var a, b := TrimStrips(line[..n]);
    var own := Trim(line[..n]);
    assert StripsTo(line[..n], own);
    assert ReadsAsNames(own, names) <==> names == OwnHosts(line);
    if Gives(line, names) {
      var m: nat, text: string :| Uncommented(line, m) && StripsTo(line[..m], text) && ReadsAsNames(text, names);
      a, b :| Between(line[..m], a, text, b);
      TrimBetween(line[..m], a, text, b);
    }
  }

  lemma Comment(line: string) returns (n: nat)
    ensures Uncommented(line, n) && line[..n] == if StrChr(line, '#') >= 0 then line[..StrChr(line, '#')] else line
  {
    var h := StrChr(line, '#');
    n := if h >= 0 then h else |line|;
    forall i | 0 <= i < n
      ensures line[i] != '#'
    {
      assert line[i] == line[..n][i];
    }
  }

  lemma TrimBetween(s: string, a: string, text: string, b: string)
    requires Between(s, a, text, b)
    ensures Trim(s) == text
  {
    TrimOf(a, text, b);
  }

  // ---- Reading, as a function

  /** The hosts read, the cache of paths, the files expanded in their order, and
      whether the program goes on. */
  datatype State = State(names: seq<string>, cache: set<string>, log: seq<string>, ok: bool)

  /** How many files can still be opened. */
  function Uncached(w: World, cache: set<string>): nat {
    |w.files.Keys - cache|
  }

  lemma {:induction false} FewerMembers<X>(a: set<X>, b: set<X>)
    requires a <= b
    ensures |a| <= |b| && (a != b ==> |a| < |b|)
  {
    if a != {} {
      var x :| x in a;
      FewerMembers(a - {x}, b - {x});
    }
  }

  lemma UncachedFewer(w: World, a: set<string>, b: set<string>)
    requires a <= b
    ensures Uncached(w, b) <= Uncached(w, a)
    ensures forall p :: p in w.files && p !in a && p in b ==> Uncached(w, b) < Uncached(w, a)
  {
    FewerMembers(w.files.Keys - b, w.files.Keys - a);
  }

  function FileState(w: World, s: State, f: string): (r: State)
    ensures s.cache <= r.cache
    decreases Uncached(w, s.cache), 1, 0
  {
    var p := Resolve(w, f);
    if p.None? then s.(ok := false)
    else if p.value in s.cache then s
    else
      var s1 := s.(cache := s.cache + {p.value});
      UncachedFewer(w, s.cache, s1.cache);
      if p.value !in w.files then s1.(ok := false)
      else LinesState(w, s1.(log := s.log + [p.value]), w.files[p.value])
  }

  function LineState(w: World, s: State, line: string): (r: State)
    ensures s.cache <= r.cache
    decreases Uncached(w, s.cache), 2, 0
  {
    var i := Included(line);
    var s1 := if i.Some? then FileState(w, s, i.value) else s;
    if s1.ok then s1.(names := s1.names + OwnHosts(line)) else s1
  }

  function LinesState(w: World, s: State, lines: seq<string>): (r: State)
    ensures s.cache <= r.cache
    decreases Uncached(w, s.cache), 3, |lines|
  {
    if !s.ok || lines == [] then s
    else
      var s1 := LineState(w, s, lines[0]);
      UncachedFewer(w, s.cache, s1.cache);
      LinesState(w, s1, lines[1..])
  }

  // ---- Reading, as the program does it

  class Ctx {
    const w: World
    const hl: Hostlist
    var includeCache: seq<string>
    ghost var log: seq<string>

    constructor (w: World)
      ensures this.w == w && fresh(hl) && hl.Valid() && hl.Names() == [] && includeCache == [] && log == []
    {
      this.w, includeCache, log := w, [], [];
      hl := new Hostlist();
    }

    ghost function State_(): State
      requires AllValid(hl.hr)
      reads this, hl
    {
      State(hl.Names(), Cached(), log, true)
    }

    ghost function Cached(): set<string>
      reads this
    {
      set p | p in includeCache
    }

    /** wcoll_ctx_file_is_cached */
    method FileIsCached(file: string) returns (cached: bool)
      modifies this`includeCache
      ensures cached == (file in old(includeCache))
      ensures Cached() == old(Cached()) + {file}
    {
      if file in includeCache {
        return true;
      }
      includeCache := [file] + includeCache;
      cached := false;
    }

    /** wcoll_ctx_path_lookup */
    method PathLookup(name: string) returns (buf: Option<string>)
      ensures buf == FirstWith(w.path, w.files, name)
    {
      var i := 0;
      assert w.path[0..] == w.path;
      while i < |w.path|
        invariant i <= |w.path| && FirstWith(w.path, w.files, name) == FirstWith(w.path[i..], w.files, name)
      {
        if w.path[i] + "/" + name in w.files {
          return Some(w.path[i] + "/" + name);
        }
        assert w.path[i..][1..] == w.path[i + 1..];
        i := i + 1;
      }
      buf := None;
    }

    /** wcoll_ctx_read_file; the program may exit. */
    method ReadFile(f: string) returns (ok: bool)
      requires hl.Valid()
      modifies this, hl`hr, hl`nhosts
      ensures hl.Valid() && old(Cached()) <= Cached()
      ensures var r := FileState(w, old(State_()), f); ok == r.ok && (ok ==> State_() == r)
      decreases Uncached(w, Cached()), 1, 0
    {
      hide LinesState, HostlistParse.Read, Expand;
      var fqPath := Some(f);
      if !IsPath(f) {
        fqPath := PathLookup(f);
      }
      if fqPath.None? {
        return false;
      }
      ghost var before := Cached();
      var cached := FileIsCached(fqPath.value);
      if cached {
        assert Cached() == before;
        return true;
      }
      if fqPath.value !in w.files {
        return false;
      }
      UncachedFewer(w, before, Cached());
      log := log + [fqPath.value];
      ok := ReadStream(w.files[fqPath.value]);
    }

    /** wcoll_ctx_read_line */
    method ReadLine(line: string) returns (ok: bool)
      requires hl.Valid()
      modifies this, hl`hr, hl`nhosts
      ensures hl.Valid() && old(Cached()) <= Cached()
      ensures var r := LineState(w, old(State_()), line); ok == r.ok && (ok ==> State_() == r)
      ensures Included(line).None? ==>
        ok && forall names :: Gives(line, names) ==> hl.Names() == old(hl.Names()) + names
      decreases Uncached(w, Cached()), 2, 0
    {
      hide FileState, HostlistParse.Read, Expand, Trim, Gives;
      forall names | Gives(line, names)
        ensures names == OwnHosts(line)
      {
        OwnHostsAre(line, names);
      }
      var p := StrChr(line, '#');
      var rest := line;
      ok := true;
      if p >= 0 {
        if p == 0 {
          var included := IncludeFile(line);
          if included.Some? {
            ok := ReadFile(included.value);
            if !ok {
              return;
            }
          }
        }
        rest := line[..p];
      }
      rest := Trim(rest);
      if rest != "" {
        var n := Push(hl, rest);
      } else {
        assert hl.Names() + [] == hl.Names();
      }
    }

    /** wcoll_ctx_read_stream */
    method ReadStream(lines: seq<string>) returns (ok: bool)
      requires hl.Valid()
      modifies this, hl`hr, hl`nhosts
      ensures hl.Valid() && old(Cached()) <= Cached()
      ensures var r := LinesState(w, old(State_()), lines); ok == r.ok && (ok ==> State_() == r)
      decreases Uncached(w, Cached()), 3, |lines|
    {
      hide LineState, Expand;
      var i := 0;
      ok := true;
      assert lines[0..] == lines;
      while i < |lines|
        invariant i <= |lines| && ok && hl.Valid() && old(Cached()) <= Cached()
        invariant LinesState(w, old(State_()), lines) == LinesState(w, State_(), lines[i..])
      {
        UncachedFewer(w, old(Cached()), Cached());
        assert lines[i..][1..] == lines[i + 1..];
        ok := ReadLine(lines[i]);
        if !ok {
          return;
        }
        i := i + 1;
      }
    }
  }

  /** read_wcoll_path: by name.  It succeeds if and only if there is something to be
      read according to `IsOpened`, and gives the names of that, with the files that
      it opens in the log. */
  method ReadWcollPath(w: World, file: string) returns (ok: bool, hl: Hostlist, ghost log: seq<string>)
    ensures ok <==> exists page :: IsOpened(w, {}, Some(file), page)
    ensures ok ==> hl.Valid()
    ensures forall page :: IsOpened(w, {}, Some(file), page) ==> hl.Names() == PageNames(page) && log == PagePaths(page)
    ensures ok ==> Distinct(log) && Resolve(w, file).Some?
    ensures ok ==> forall q :: q in log <==> Reaches(w, Resolve(w, file).value, q)
  {
    hide FileState, Expand, IsOpened, PageNames, PagePaths, After;
    var ctx := new Ctx(w);
    assert ctx.Cached() == {} && ctx.State_() == Empty();
    ok := ctx.ReadFile(file);
    hl, log := ctx.hl, ctx.log;
    forall page | IsOpened(w, {}, Some(file), page)
      ensures FileState(w, Empty(), file) == After(Empty(), PageNames(page), PagePaths(page))
      ensures ok && hl.Names() == PageNames(page) && log == PagePaths(page)
    {
      OpenedIsState(w, Empty(), Some(file), page);
      AfterEmpty(PageNames(page), PagePaths(page));
    }
    if ok {
      ghost var page := StateIsOpened(w, Empty(), Some(file));
      ExactlyReachable(w, file);
    }
  }

  /** read_wcoll: what is read at the top is not in the cache. */
  method ReadWcoll(w: World, lines: seq<string>) returns (ok: bool, hl: Hostlist, ghost log: seq<string>)
    ensures ok <==> exists es :: IsRead(w, {}, lines, es)
    ensures ok ==> hl.Valid()
    ensures forall es :: IsRead(w, {}, lines, es) ==> hl.Names() == NamesRead(es) && log == PathsRead(es)
    ensures ok ==> Distinct(log) && forall q :: q in log <==> From(w, lines, q)
  {
    hide LinesState, Expand, IsRead, NamesRead, PathsRead, After;
    var ctx := new Ctx(w);
    assert ctx.Cached() == {} && ctx.State_() == Empty();
    ok := ctx.ReadStream(lines);
    hl, log := ctx.hl, ctx.log;
    forall es | IsRead(w, {}, lines, es)
      ensures ok && hl.Names() == NamesRead(es) && log == PathsRead(es)
    {
      ReadIsState(w, Empty(), lines, es);
      AfterEmpty(NamesRead(es), PathsRead(es));
    }
    if ok {
      ghost var es := StateIsRead(w, Empty(), lines);
      ExactlyFrom(w, lines);
    }
  }

  function Empty(): State {
    State([], {}, [], true)
  }

  lemma AfterEmpty(names: seq<string>, paths: seq<string>)
    ensures After(Empty(), names, paths) == State(names, SetOf(paths), paths, true)
  {
  }

  // ---- The hosts, in depth-first order

  /** What is read where: the lines of a text, each with the names on it and with
      the page of the file that it opens, if it opens one. */
  datatype Entry = Entry(line: string, page: Page, names: seq<string>)

  datatype Page = NoPage | Page(path: string, entries: seq<Entry>)

  /** All names: of each line in turn, behind those of the file that it opens. */
  function NamesRead(es: seq<Entry>): seq<string>
    decreases es
  {
    if es == [] then [] else PageNames(es[0].page) + es[0].names + NamesRead(es[1..])
  }

  function PageNames(page: Page): seq<string>
    decreases page
  {
    if page.NoPage? then [] else NamesRead(page.entries)
  }

  /** The files opened, in their order. */
  function PathsRead(es: seq<Entry>): seq<string>
    decreases es
  {
    if es == [] then [] else PagePaths(es[0].page) + PathsRead(es[1..])
  }

  function PagePaths(page: Page): seq<string>
    decreases page
  {
    if page.NoPage? then [] else [page.path] + PathsRead(page.entries)
  }

  function SetOf(ps: seq<string>): set<string> {
    set p | p in ps
  }

  /** The entries are those of the lines when the files in `seen` are open or read:
      each line gives its names, and a line that includes a file opens it exactly if
      it has not been seen; of an opened file every line is an entry. */
  ghost predicate IsRead(w: World, seen: set<string>, lines: seq<string>, es: seq<Entry>)
    decreases es
  {
    && |es| == |lines|
    && (es != [] ==>
          && es[0].line == lines[0] && Gives(lines[0], es[0].names)
          && IsOpened(w, seen, Included(lines[0]), es[0].page)
          && IsRead(w, seen + SetOf(PagePaths(es[0].page)), lines[1..], es[1..]))
  }

  ghost predicate IsOpened(w: World, seen: set<string>, file: Option<string>, page: Page)
    decreases page
  {
    if file.None? then page.NoPage?
    else
      && Resolve(w, file.value).Some?
      && var p := Resolve(w, file.value).value;
        if p in seen then page.NoPage?
        else page.Page? && page.path == p && p in w.files && IsRead(w, seen + {p}, w.files[p], page.entries)
  }

  /** The state after that. */
  function After(s: State, names: seq<string>, paths: seq<string>): State {
    State(s.names + names, s.cache + SetOf(paths), s.log + paths, s.ok)
  }

  lemma AfterTwice(s: State, n1: seq<string>, p1: seq<string>, n2: seq<string>, p2: seq<string>)
    ensures After(After(s, n1, p1), n2, p2) == After(s, n1 + n2, p1 + p2) && After(s, [], []) == s
  {
    assert (s.names + n1) + n2 == s.names + (n1 + n2) && (s.log + p1) + p2 == s.log + (p1 + p2);
    assert SetOf(p1) + SetOf(p2) == SetOf(p1 + p2);
    assert s.names + [] == s.names && s.log + [] == s.log && s.cache + SetOf([]) == s.cache;
  }

  /** Whatever is read according to this is what reading leaves behind. */
  lemma {:induction false} ReadIsState(w: World, s: State, lines: seq<string>, es: seq<Entry>)
    requires s.ok && IsRead(w, s.cache, lines, es)
    ensures LinesState(w, s, lines) == After(s, NamesRead(es), PathsRead(es))
    decreases es
  {
    hide After, OwnHosts, Gives;
    AfterTwice(s, [], [], [], []);
    if es != [] {
      var e := es[0];
      OpenedIsState(w, s, Included(lines[0]), e.page);
      OwnHostsAre(lines[0], e.names);
      LineIsAfter(w, s, lines[0], PageNames(e.page), PagePaths(e.page), e.names);
      var t := After(s, PageNames(e.page) + e.names, PagePaths(e.page));
      AfterParts(s, PageNames(e.page) + e.names, PagePaths(e.page));
      ReadIsState(w, t, lines[1..], es[1..]);
      AfterTwice(s, PageNames(e.page) + e.names, PagePaths(e.page), NamesRead(es[1..]), PathsRead(es[1..]));
    }
  }

  lemma AfterParts(s: State, names: seq<string>, paths: seq<string>)
    ensures After(s, names, paths).ok == s.ok && After(s, names, paths).cache == s.cache + SetOf(paths)
  {
  }

  lemma LineIsAfter(w: World, s: State, line: string, names: seq<string>, paths: seq<string>, own: seq<string>)
    requires s.ok && own == OwnHosts(line)
    requires (if Included(line).Some? then FileState(w, s, Included(line).value) else s) == After(s, names, paths)
    ensures LineState(w, s, line) == After(s, names + own, paths)
  {
    hide OwnHosts, FileState, Included;
    assert (s.names + names) + own == s.names + (names + own);
  }

  lemma {:induction false} OpenedIsState(w: World, s: State, file: Option<string>, page: Page)
    requires s.ok && IsOpened(w, s.cache, file, page)
    ensures (if file.Some? then FileState(w, s, file.value) else s) == After(s, PageNames(page), PagePaths(page))
    decreases page
  {
    hide Resolve;
    AfterTwice(s, [], [], [], []);
    if page.Page? {
      var p := page.path;
      var t := s.(cache := s.cache + {p}, log := s.log + [p]);
      ReadIsState(w, t, w.files[p], page.entries);
      assert SetOf([p]) == {p};
      assert t == After(s, [], [p]);
      AfterTwice(s, [], [p], NamesRead(page.entries), PathsRead(page.entries));
    }
  }

  /** And whenever reading succeeds, something is read according to this. */
  lemma {:induction false} StateIsRead(w: World, s: State, lines: seq<string>) returns (es: seq<Entry>)
    requires LinesState(w, s, lines).ok
    ensures IsRead(w, s.cache, lines, es)
    decreases Uncached(w, s.cache), 3, |lines|
  {
    hide OwnHosts, Gives;
    LinesGrow(w, s, lines);
    if lines == [] {
      es := [];
    } else {
      var t := LineState(w, s, lines[0]);
      LinesGrow(w, t, lines[1..]);
      UncachedFewer(w, s.cache, t.cache);
      var page := StateIsOpened(w, s, Included(lines[0]));
      var rest := StateIsRead(w, t, lines[1..]);
      var names := OwnHosts(lines[0]);
      OwnHostsAre(lines[0], names);
      OpenedIsState(w, s, Included(lines[0]), page);
      es := [Entry(lines[0], page, names)] + rest;
      assert es[1..] == rest;
    }
  }

  lemma {:induction false} StateIsOpened(w: World, s: State, file: Option<string>) returns (page: Page)
    requires s.ok && (file.Some? ==> FileState(w, s, file.value).ok)
    ensures IsOpened(w, s.cache, file, page)
    decreases Uncached(w, s.cache), 2, 0
  {
    hide Resolve;
    page := NoPage;
    if file.Some? && Resolve(w, file.value).value !in s.cache {
      var p := Resolve(w, file.value).value;
      var t := s.(cache := s.cache + {p}, log := s.log + [p]);
      UncachedFewer(w, s.cache, t.cache);
      var es := StateIsRead(w, t, w.files[p]);
      page := Page(p, es);
    }
  }

  // ---- Every file once, and just those that are reached

  /** The path of the file that a line includes. */
  function Target(w: World, line: string): Option<string> {
    var i := Included(line);
    if i.Some? then Resolve(w, i.value) else None
  }

  /** The file `p` includes the file `q`. */
  predicate Edge(w: World, p: string, q: string) {
    p in w.files && exists i {:trigger w.files[p][i]} :: 0 <= i < |w.files[p]| && Target(w, w.files[p][i]) == Some(q)
  }

  predicate Walk(w: World, ps: seq<string>) {
    ps != [] && forall i, j :: 0 <= i < |ps| && j == i + 1 && j < |ps| ==> Edge(w, ps[i], ps[j])
  }

  ghost predicate Reaches(w: World, p: string, q: string) {
    exists ps :: Walk(w, ps) && ps[0] == p && ps[|ps| - 1] == q
  }

  /** Some line includes a file from which `q` is reached. */
  ghost predicate From(w: World, lines: seq<string>, q: string) {
    exists i {:trigger lines[i]} ::
      0 <= i < |lines| && Target(w, lines[i]).Some? && Reaches(w, Target(w, lines[i]).value, q)
  }

  lemma ReachesSelf(w: World, p: string)
    ensures Reaches(w, p, p)
  {
    assert Walk(w, [p]);
  }

  lemma WalkFrom(w: World, p: string, ps: seq<string>)
    requires Walk(w, ps) && Edge(w, p, ps[0])
    ensures Walk(w, [p] + ps)
  {
    hide Edge;
    var rs := [p] + ps;
    forall i, j | 0 <= i < |rs| && j == i + 1 && j < |rs|
      ensures Edge(w, rs[i], rs[j])
    {
      if i > 0 {
        assert rs[i] == ps[i - 1] && rs[j] == ps[j - 1];
      }
    }
  }

  lemma ReachesByEdge(w: World, p: string, t: string, q: string)
    requires Edge(w, p, t) && Reaches(w, t, q)
    ensures Reaches(w, p, q)
  {
    hide Edge;
    var ps :| Walk(w, ps) && ps[0] == t && ps[|ps| - 1] == q;
    WalkFrom(w, p, ps);
    var rs := [p] + ps;
    assert Walk(w, rs) && rs[0] == p && rs[|rs| - 1] == q;
  }

  lemma ReachesThrough(w: World, p: string, q: string)
    requires p in w.files && From(w, w.files[p], q)
    ensures Reaches(w, p, q)
  {
    var i :| 0 <= i < |w.files[p]| && Target(w, w.files[p][i]).Some? && Reaches(w, Target(w, w.files[p][i]).value, q);
    ReachesByEdge(w, p, Target(w, w.files[p][i]).value, q);
  }

  /** What reading does to the log and the cache: the log grows by files that
      were not in the cache and now are, each once. */
  ghost predicate Grows(s: State, r: State) {
    && s.log <= r.log && s.cache <= r.cache
    && (forall i :: |s.log| <= i < |r.log| ==> r.log[i] in r.cache && r.log[i] !in s.cache)
    && (forall i, j :: |s.log| <= i < j < |r.log| ==> r.log[i] != r.log[j])
    && (r.ok ==> forall q :: q in r.cache ==> q in s.cache || q in r.log[|s.log|..])
  }

  lemma GrowsTwice(s: State, t: State, r: State)
    requires Grows(s, t) && Grows(t, r) && (r.ok ==> t.ok)
    ensures Grows(s, r)
  {
    forall i | |s.log| <= i < |r.log|
      ensures r.log[i] in r.cache && r.log[i] !in s.cache
    {
      if i < |t.log| {
        assert r.log[i] == t.log[i];
      }
    }
    forall i, j | |s.log| <= i < j < |r.log|
      ensures r.log[i] != r.log[j]
    {
      if j < |t.log| {
        assert r.log[i] == t.log[i] && r.log[j] == t.log[j];
      } else if i < |t.log| {
        assert r.log[i] == t.log[i];
      }
    }
    if r.ok {
      forall q | q in r.cache && q !in s.cache
        ensures q in r.log[|s.log|..]
      {
        if q in t.cache {
          var i :| 0 <= i < |t.log[|s.log|..]| && t.log[|s.log|..][i] == q;
          assert r.log[|s.log|..][i] == t.log[i + |s.log|] == q;
        } else {
          var i :| 0 <= i < |r.log[|t.log|..]| && r.log[|t.log|..][i] == q;
          assert r.log[|s.log|..][i + |t.log| - |s.log|] == q;
        }
      }
    }
  }

  lemma {:induction false} FileGrows(w: World, s: State, f: string)
    ensures Grows(s, FileState(w, s, f))
    decreases Uncached(w, s.cache), 1, 0
  {
    var p, r := Resolve(w, f), FileState(w, s, f);
    if p.Some? && p.value !in s.cache && p.value in w.files {
      var t := s.(cache := s.cache + {p.value}, log := s.log + [p.value]);
      UncachedFewer(w, s.cache, t.cache);
      LinesGrow(w, t, w.files[p.value]);
      assert t.log[|s.log|..] == [p.value];
      GrowsTwice(s, t, r);
    }
  }

  lemma {:induction false} LineGrows(w: World, s: State, line: string)
    ensures Grows(s, LineState(w, s, line)) && (s.ok || !LineState(w, s, line).ok || Included(line).Some?)
    decreases Uncached(w, s.cache), 2, 0
  {
    var i := Included(line);
    if i.Some? {
      FileGrows(w, s, i.value);
    }
  }

  lemma {:induction false} LinesGrow(w: World, s: State, lines: seq<string>)
    ensures Grows(s, LinesState(w, s, lines)) && (LinesState(w, s, lines).ok ==> s.ok)
    decreases Uncached(w, s.cache), 3, |lines|
  {
    if s.ok && lines != [] {
      var t := LineState(w, s, lines[0]);
      LineGrows(w, s, lines[0]);
      UncachedFewer(w, s.cache, t.cache);
      LinesGrow(w, t, lines[1..]);
      GrowsTwice(s, t, LinesState(w, s, lines));
    }
  }

  /** All files that a file includes are in the cache. */
  predicate Done(w: World, cache: set<string>, q: string) {
    q in w.files && AllIn(w, cache, w.files[q])
  }

  predicate AllIn(w: World, cache: set<string>, lines: seq<string>) {
    forall i :: 0 <= i < |lines| && Target(w, lines[i]).Some? ==> Target(w, lines[i]).value in cache
  }

  ghost predicate DoneFrom(w: World, r: State, n: nat) {
    forall i :: n <= i < |r.log| ==> Done(w, r.cache, r.log[i])
  }

  lemma DoneLater(w: World, t: State, r: State, n: nat)
    requires DoneFrom(w, t, n) && DoneFrom(w, r, |t.log|) && t.log <= r.log && t.cache <= r.cache
    ensures DoneFrom(w, r, n)
  {
    forall i | n <= i < |r.log|
      ensures Done(w, r.cache, r.log[i])
    {
      if i < |t.log| {
        assert Done(w, t.cache, t.log[i]);
      }
    }
  }

  lemma {:induction false} FileDone(w: World, s: State, f: string)
    requires FileState(w, s, f).ok && s.ok
    ensures var r := FileState(w, s, f);
      DoneFrom(w, r, |s.log|) && Resolve(w, f).Some? && Resolve(w, f).value in r.cache
    decreases Uncached(w, s.cache), 1, 0
  {
    var p, r := Resolve(w, f), FileState(w, s, f);
    if p.value !in s.cache {
      var t := s.(cache := s.cache + {p.value}, log := s.log + [p.value]);
      UncachedFewer(w, s.cache, t.cache);
      LinesDone(w, t, w.files[p.value]);
      LinesGrow(w, t, w.files[p.value]);
      assert r.log[|s.log|] == t.log[|s.log|] == p.value;
    }
  }

  lemma {:induction false} LineDone(w: World, s: State, line: string)
    requires LineState(w, s, line).ok && s.ok
    ensures DoneFrom(w, LineState(w, s, line), |s.log|) && AllIn(w, LineState(w, s, line).cache, [line])
    decreases Uncached(w, s.cache), 2, 0
  {
    var i := Included(line);
    if i.Some? {
      FileDone(w, s, i.value);
      var r, t := LineState(w, s, line), FileState(w, s, i.value);
      assert r.log == t.log && r.cache == t.cache;
    }
  }

  lemma {:induction false} LinesDone(w: World, s: State, lines: seq<string>)
    requires LinesState(w, s, lines).ok
    ensures DoneFrom(w, LinesState(w, s, lines), |s.log|) && AllIn(w, LinesState(w, s, lines).cache, lines)
    decreases Uncached(w, s.cache), 3, |lines|
  {
    hide LineState, Done;
    if s.ok && lines != [] {
      var t, r := LineState(w, s, lines[0]), LinesState(w, s, lines);
      LineGrows(w, s, lines[0]);
      UncachedFewer(w, s.cache, t.cache);
      LinesGrow(w, t, lines[1..]);
      LineDone(w, s, lines[0]);
      LinesDone(w, t, lines[1..]);
      DoneLater(w, t, r, |s.log|);
      forall i | 0 <= i < |lines| && Target(w, lines[i]).Some?
        ensures Target(w, lines[i]).value in r.cache
      {
        if i == 0 {
          assert [lines[0]][0] == lines[0];
        } else {
          assert lines[1..][i - 1] == lines[i];
        }
      }
    }
  }

  /** Whatever is expanded is reached. */
  ghost predicate Reached(w: World, lines: seq<string>, s: State, r: State) {
    forall i {:trigger r.log[i]} :: |s.log| <= i < |r.log| ==> From(w, lines, r.log[i])
  }

  ghost predicate ReachedBy(w: World, f: string, s: State, r: State) {
    forall i {:trigger r.log[i]} :: |s.log| <= i < |r.log| ==>
      Resolve(w, f).Some? && Reaches(w, Resolve(w, f).value, r.log[i])
  }

  lemma {:induction false} FileReached(w: World, s: State, f: string)
    ensures ReachedBy(w, f, s, FileState(w, s, f))
    decreases Uncached(w, s.cache), 1, 0
  {
    var p, r := Resolve(w, f), FileState(w, s, f);
    if p.Some? && p.value !in s.cache && p.value in w.files {
      var t := s.(cache := s.cache + {p.value}, log := s.log + [p.value]);
      UncachedFewer(w, s.cache, t.cache);
      LinesGrow(w, t, w.files[p.value]);
      LinesReached(w, t, w.files[p.value]);
      forall i | |s.log| <= i < |r.log|
        ensures Reaches(w, p.value, r.log[i])
      {
        if i == |s.log| {
          assert r.log[i] == t.log[i] == p.value;
          ReachesSelf(w, p.value);
        } else {
          ReachesThrough(w, p.value, r.log[i]);
        }
      }
    }
  }

  lemma OneLine(w: World, line: string, q: string)
    requires Target(w, line).Some? && Reaches(w, Target(w, line).value, q)
    ensures From(w, [line], q)
  {
    assert [line][0] == line;
    assert Target(w, [line][0]).Some? && Reaches(w, Target(w, [line][0]).value, q);
  }

  lemma {:induction false} LineReached(w: World, s: State, line: string)
    ensures Reached(w, [line], s, LineState(w, s, line))
    decreases Uncached(w, s.cache), 2, 0
  {
    hide FileState, Included, OwnHosts;
    var i, r := Included(line), LineState(w, s, line);
    if i.Some? {
      FileReached(w, s, i.value);
      ByLine(w, line, i.value, s, FileState(w, s, i.value), r);
    }
  }

  lemma ByLine(w: World, line: string, f: string, s: State, t: State, r: State)
    requires Included(line) == Some(f) && ReachedBy(w, f, s, t) && r.log == t.log
    ensures Reached(w, [line], s, r)
  {
    forall k | |s.log| <= k < |r.log|
      ensures From(w, [line], r.log[k])
    {
      OneLine(w, line, t.log[k]);
    }
  }

  lemma {:induction false} LinesReached(w: World, s: State, lines: seq<string>)
    ensures Reached(w, lines, s, LinesState(w, s, lines))
    decreases Uncached(w, s.cache), 3, |lines|
  {
    hide LineState;
    if s.ok && lines != [] {
      var t, r := LineState(w, s, lines[0]), LinesState(w, s, lines);
      LineGrows(w, s, lines[0]);
      UncachedFewer(w, s.cache, t.cache);
      LinesGrow(w, t, lines[1..]);
      LineReached(w, s, lines[0]);
      LinesReached(w, t, lines[1..]);
      forall k | |s.log| <= k < |r.log|
        ensures From(w, lines, r.log[k])
      {
        if k < |t.log| {
          assert r.log[k] == t.log[k];
          FromOne(w, lines, r.log[k]);
        } else {
          FromRest(w, lines, r.log[k]);
        }
      }
    }
  }

  lemma FromOne(w: World, lines: seq<string>, q: string)
    requires lines != [] && From(w, [lines[0]], q)
    ensures From(w, lines, q)
  {
    assert Target(w, lines[0]).Some?;
  }

  lemma FromRest(w: World, lines: seq<string>, q: string)
    requires lines != [] && From(w, lines[1..], q)
    ensures From(w, lines, q)
  {
    var i :| 0 <= i < |lines[1..]| && Target(w, lines[1..][i]).Some? && Reaches(w, Target(w, lines[1..][i]).value, q);
    assert lines[1..][i] == lines[i + 1];
  }

  /** A log that is done with everything in it has all that is reached from it. */
  lemma {:induction false} WalkStays(w: World, r: State, ps: seq<string>, i: nat)
    requires DoneFrom(w, r, 0) && (forall q :: q in r.cache ==> q in r.log)
    requires Walk(w, ps) && ps[0] in r.log && i < |ps|
    ensures ps[i] in r.log
  {
    if i > 0 {
      WalkStays(w, r, ps, i - 1);
      assert Edge(w, ps[i - 1], ps[i]);
      var k :| 0 <= k < |r.log| && r.log[k] == ps[i - 1];
      assert Done(w, r.cache, r.log[k]);
    }
  }

  /** Without a failure just the files are expanded that the lines reach, and
      each of them once. */
  lemma ExactlyFrom(w: World, lines: seq<string>)
    requires LinesState(w, Empty(), lines).ok
    ensures var log := LinesState(w, Empty(), lines).log;
      Distinct(log) && forall q :: q in log <==> From(w, lines, q)
  {
    hide LinesState;
    var s, r := Empty(), LinesState(w, Empty(), lines);
    LinesGrow(w, s, lines);
    LinesDone(w, s, lines);
    LinesReached(w, s, lines);
    AllLogged(s, r);
    forall q | From(w, lines, q)
      ensures q in r.log
    {
      var i :| 0 <= i < |lines| && Target(w, lines[i]).Some? && Reaches(w, Target(w, lines[i]).value, q);
      var ps :| Walk(w, ps) && ps[0] == Target(w, lines[i]).value && ps[|ps| - 1] == q;
      WalkStays(w, r, ps, |ps| - 1);
    }
  }

  lemma AllLogged(s: State, r: State)
    requires s == Empty() && Grows(s, r) && r.ok
    ensures forall q :: q in r.cache ==> q in r.log
    ensures Distinct(r.log)
  {
    assert r.log[0..] == r.log;
  }

  lemma ExactlyReachable(w: World, f: string)
    requires FileState(w, Empty(), f).ok
    ensures Resolve(w, f).Some? && Distinct(FileState(w, Empty(), f).log)
    ensures forall q :: q in FileState(w, Empty(), f).log <==> Reaches(w, Resolve(w, f).value, q)
  {
    hide FileState;
    var s, r := Empty(), FileState(w, Empty(), f);
    FileGrows(w, s, f);
    FileDone(w, s, f);
    FileReached(w, s, f);
    AllLogged(s, r);
    assert forall i :: 0 <= i < |r.log| ==> Reaches(w, Resolve(w, f).value, r.log[i]);
    var p := Resolve(w, f).value;
    forall q | Reaches(w, p, q)
      ensures q in r.log
    {
      var ps :| Walk(w, ps) && ps[0] == p && ps[|ps| - 1] == q;
      WalkStays(w, r, ps, |ps| - 1);
    }
  }

  /** Read as a stream, a file is read again if and only if it includes itself,
      on whatever way; and then only once more. */
  lemma ReadAgain(w: World, p: string)
    requires p in w.files && LinesState(w, Empty(), w.files[p]).ok
    ensures p in LinesState(w, Empty(), w.files[p]).log <==> exists q :: Edge(w, p, q) && Reaches(w, q, p)
  {
    hide LinesState;
    ExactlyFrom(w, w.files[p]);
    if From(w, w.files[p], p) {
      var i :| 0 <= i < |w.files[p]| && Target(w, w.files[p][i]).Some? && Reaches(w, Target(w, w.files[p][i]).value, p);
      assert Edge(w, p, Target(w, w.files[p][i]).value);
    }
    if q :| Edge(w, p, q) && Reaches(w, q, p) {
      var i :| 0 <= i < |w.files[p]| && Target(w, w.files[p][i]) == Some(q);
      assert Target(w, w.files[p][i]).Some?;
    }
  }
}
