/** The copy protocol of pdcp. */
module PcpModel {
  // Apart from the two programs that speak it (src/pdsh/pcp_client.c and
  // src/pdsh/pcp_server.c): the trees that are copied, the records on the wire, and
  // the tree that is to be built from them.

  import opened Decimal
  import opened Sequences

  const BUFSIZ := 8192

  /** What is copied. */
  datatype Tree =
    | Reg(name: string, mode: nat, mtime: nat, atime: nat, data: string)
    | Dir(name: string, mode: nat, mtime: nat, atime: nat, kids: seq<Tree>)

  /** A file system of the receiving side, by path. */
  datatype Node = RegNode(mode: nat, data: string) | DirNode(mode: nat)

  type Files = map<string, Node>

  // ---- The wire

  /** One byte from the client to the server, or an acknowledgement back. */
  datatype Event = Byte(c: char) | Ack

  function Bytes(s: string): (es: seq<Event>)
    ensures |es| == |s|
  {
    seq(|s|, i requires 0 <= i < |s| => Byte(s[i]))
  }

  lemma BytesConcat(a: string, b: string)
    ensures Bytes(a + b) == Bytes(a) + Bytes(b)
  {
  }

  lemma BytesNone()
    ensures Bytes("") == []
  {
  }

  /** The bytes that the client sends. */
  function Out(es: seq<Event>): string {
    if es == [] then "" else (if es[0].Byte? then [es[0].c] else "") + Out(es[1..])
  }

  lemma {:induction false} OutConcat(a: seq<Event>, b: seq<Event>)
    ensures Out(a + b) == Out(a) + Out(b)
  {
    if a == [] {
      assert a + b == b;
    } else {
      assert (a + b)[0] == a[0] && (a + b)[1..] == a[1..] + b;
      OutConcat(a[1..], b);
      Assoc(if a[0].Byte? then [a[0].c] else "", Out(a[1..]), Out(b));
    }
  }

  lemma {:induction false} OutBytes(s: string)
    ensures Out(Bytes(s)) == s
  {
    if s != "" {
      assert Bytes(s)[1..] == Bytes(s[1..]);
      OutBytes(s[1..]);
    }
  }

  function OctalDigit(n: nat): char {
    ('0' as int + n % 8) as char
  }

  /** "%04o", for a mode of four digits */
  function Octal(mode: nat): (s: string)
    ensures |s| == 4
  {
    [OctalDigit(mode / 512), OctalDigit(mode / 64), OctalDigit(mode / 8), OctalDigit(mode)]
  }

  function TimeLine(t: Tree): string {
    "T" + Numeral(t.mtime) + " 0 " + Numeral(t.atime) + " 0\n"
  }

  function ControlLine(t: Tree): string {
    (if t.Dir? then "D" else "C") + Octal(t.mode) + " " + Numeral(if t.Dir? then 0 else |t.data|) + " " + t.name + "\n"
  }

  /** What announces a file or a directory. */
  function Head(t: Tree, preserve: bool): seq<Event> {
    (if preserve then Bytes(TimeLine(t)) + [Ack] else []) + Bytes(ControlLine(t)) + [Ack]
  }

  function Contents(t: Tree): seq<Event>
    requires t.Reg?
  {
    Bytes(t.data) + Bytes([NUL]) + [Ack]
  }

  const NUL := '\0'

  /** The end of a directory. */
  function Exit(): seq<Event> {
    Bytes("E\n") + [Ack]
  }

  /** The exchange that copies the trees one after the other. */
  function Events(ts: seq<Tree>, preserve: bool): seq<Event> {
    if ts == [] then [] else
      Head(ts[0], preserve)
      + (if ts[0].Reg? then Contents(ts[0]) else Events(ts[0].kids, preserve) + Exit())
      + Events(ts[1..], preserve)
  }

  // ---- What is asked of the trees

  predicate GoodName(name: string) {
    name != "" && '/' !in name && '\n' !in name && NUL !in name
  }

  predicate Sendable(t: Tree, preserve: bool) {
    && GoodName(t.name) && t.mode < 4096
    && |ControlLine(t)| < BUFSIZ && (preserve ==> |TimeLine(t)| < BUFSIZ)
  }

  /** Names are fit to be sent, and siblings have different ones. */
  predicate WellFormed(ts: seq<Tree>, preserve: bool) {
    ts != [] ==>
      && Sendable(ts[0], preserve)
      && (forall j :: 0 < j < |ts| ==> ts[j].name != ts[0].name)
      && (ts[0].Dir? ==> WellFormed(ts[0].kids, preserve))
      && WellFormed(ts[1..], preserve)
  }

  // ---- What is to be built

  function Join(targ: string, name: string): string {
    targ + (if targ == "" then "" else "/") + name
  }

  /** Into a directory, or in the place of the target. */
  function Np(targ: string, isdir: bool, name: string): string {
    if isdir then Join(targ, name) else targ
  }

  /** The directory that a path is in; "" for the working directory and the root. */
  function Parent(path: string): string
    decreases |path|
  {
    if path == "" then ""
    else if path[|path| - 1] == '/' then path[..|path| - 1]
    else Parent(path[..|path| - 1])
  }

  predicate IsDir(fs: Files, path: string) {
    path in fs && fs[path].DirNode?
  }

  /** Whether something can be made at a path: where it is to stand there is a
      directory. */
  predicate InDir(fs: Files, path: string) {
    Parent(path) == "" || IsDir(fs, Parent(path))
  }

  lemma {:induction false} ParentJoined(base: string, name: string)
    requires '/' !in name
    ensures Parent(base + "/" + name) == base
  {
    var path := base + "/" + name;
    if name == "" {
      assert path == base + "/";
      assert path[..|path| - 1] == base;
    } else {
      var most := name[..|name| - 1];
      assert path[..|path| - 1] == base + "/" + most;
      assert path[|path| - 1] == name[|name| - 1];
      ParentJoined(base, most);
    }
  }

  lemma {:induction false} ParentOfName(name: string)
    requires '/' !in name
    ensures Parent(name) == ""
  {
    if name != "" {
      ParentOfName(name[..|name| - 1]);
    }
  }

  /** What is put into a directory can be made there. */
  lemma JoinedInDir(fs: Files, targ: string, name: string)
    requires '/' !in name && IsDir(fs, targ)
    ensures InDir(fs, Join(targ, name))
  {
    if targ == "" {
      assert Join(targ, name) == name;
      ParentOfName(name);
    } else {
      ParentJoined(targ, name);
    }
  }

  /** An object that is there already keeps its mode, unless modes are preserved. */
  function NewMode(fs: Files, np: string, mode: nat, preserve: bool): nat {
    if np in fs && !preserve then fs[np].mode else mode
  }

  function PlaceNode(fs: Files, np: string, t: Tree, preserve: bool): Files {
    var mode := NewMode(fs, np, t.mode, preserve);
    fs[np := if t.Reg? then RegNode(mode, t.data) else DirNode(mode)]
  }

  function PlaceTree(fs: Files, np: string, t: Tree, preserve: bool): Files
    decreases t, 0
  {
    var fs1 := PlaceNode(fs, np, t, preserve);
    if t.Dir? then PlaceAll(fs1, np, true, t.kids, preserve) else fs1
  }

  function PlaceAll(fs: Files, targ: string, isdir: bool, ts: seq<Tree>, preserve: bool): Files
    decreases ts
  {
    if ts == [] then fs else
      PlaceAll(PlaceTree(fs, Np(targ, isdir, ts[0].name), ts[0], preserve), targ, isdir, ts[1..], preserve)
  }

  /** The paths of the trees below their target. */
  function Paths(targ: string, isdir: bool, ts: seq<Tree>): seq<string>
    decreases ts
  {
    if ts == [] then [] else
      var np := Np(targ, isdir, ts[0].name);
      [np] + (if ts[0].Dir? then Paths(np, true, ts[0].kids) else []) + Paths(targ, isdir, ts[1..])
  }

  /** What is there already is of the kind that is to be put there. */
  predicate Fits(fs: Files, targ: string, isdir: bool, ts: seq<Tree>)
    decreases ts
  {
    ts != [] ==>
      var np := Np(targ, isdir, ts[0].name);
      && (np in fs ==> (fs[np].DirNode? <==> ts[0].Dir?))
      && (ts[0].Dir? ==> Fits(fs, np, true, ts[0].kids))
      && Fits(fs, targ, isdir, ts[1..])
  }

  /** After the copy the trees stand in the file system `a`, which was `b`: with
      their names, contents and modes. */
  predicate Stand(a: Files, b: Files, targ: string, isdir: bool, ts: seq<Tree>, preserve: bool)
    decreases ts
  {
    ts != [] ==>
      var np := Np(targ, isdir, ts[0].name);
      var mode := if np in b && !preserve then b[np].mode else ts[0].mode;
      && np in a && a[np] == (if ts[0].Reg? then RegNode(mode, ts[0].data) else DirNode(mode))
      && (ts[0].Dir? ==> Stand(a, b, np, true, ts[0].kids, preserve))
      && Stand(a, b, targ, isdir, ts[1..], preserve)
  }

  // ---- Paths of different trees are different

  /** `q` is `p` or below it. */
  predicate Under(p: string, q: string) {
    p <= q && (|q| > |p| ==> q[|p|] == '/')
  }

  lemma UnderTransitive(p: string, q: string, r: string)
    requires Under(p, q) && Under(q, r)
    ensures Under(p, r)
  {
    assert r[..|q|] == q && q[..|p|] == p;
    assert r[..|p|] == r[..|q|][..|p|];
    assert |q| > |p| ==> r[|p|] == q[|p|];
  }

  lemma JoinUnder(targ: string, name: string)
    requires targ != ""
    ensures Under(targ, Join(targ, name)) && Join(targ, name) != targ
  {
    assert targ + "/" + name == targ + ("/" + name);
  }

  /** Nothing is below two siblings of different names. */
  lemma SiblingsApart(targ: string, n1: string, n2: string, q: string)
    requires GoodName(n1) && GoodName(n2) && n1 != n2
    requires Under(Join(targ, n1), q)
    ensures !Under(Join(targ, n2), q)
  {
    if Under(Join(targ, n2), q) {
      if |n1| <= |n2| {
        Apart(targ, n1, n2, q);
      } else {
        Apart(targ, n2, n1, q);
      }
      assert false;
    }
  }

  lemma Apart(targ: string, n1: string, n2: string, q: string)
    requires GoodName(n1) && GoodName(n2) && |n1| <= |n2|
    requires Under(Join(targ, n1), q) && Under(Join(targ, n2), q)
    ensures n1 == n2
  {
    var b := targ + (if targ == "" then "" else "/");
    var p1, p2 := b + n1, b + n2;
    assert q[..|p1|] == p1 && q[..|p2|] == p2;
    assert n1 == q[|b|..|p1|] && n2 == q[|b|..|p2|];
    CharAt(b, n2, q, |n1|);
  }

  lemma CharAt(b: string, n: string, q: string, i: nat)
    requires b + n <= q
    ensures i < |n| ==> n[i] == q[|b| + i]
  {
    assert i < |n| ==> (b + n)[|b| + i] == n[i];
  }

  /** Every path belongs to one of the trees. */
  lemma {:induction false} PathsBelow(targ: string, ts: seq<Tree>, preserve: bool, q: string) returns (j: nat)
    requires WellFormed(ts, preserve) && q in Paths(targ, true, ts)
    ensures j < |ts| && Under(Join(targ, ts[j].name), q)
    decreases ts
  {
    var np := Join(targ, ts[0].name);
    if q == np {
      j := 0;
    } else if ts[0].Dir? && q in Paths(np, true, ts[0].kids) {
      var k := PathsBelow(np, ts[0].kids, preserve, q);
      JoinUnder(np, ts[0].kids[k].name);
      UnderTransitive(np, Join(np, ts[0].kids[k].name), q);
      j := 0;
    } else {
      j := PathsBelow(targ, ts[1..], preserve, q);
      j := j + 1;
    }
  }

  lemma KidsBelow(np: string, kids: seq<Tree>, preserve: bool, q: string)
    requires np != "" && WellFormed(kids, preserve) && q in Paths(np, true, kids)
    ensures Under(np, q) && q != np
  {
    var k := PathsBelow(np, kids, preserve, q);
    JoinUnder(np, kids[k].name);
    UnderTransitive(np, Join(np, kids[k].name), q);
  }

  /** A target that is no directory takes one tree. */
  predicate Target(targ: string, isdir: bool, ts: seq<Tree>) {
    isdir || (|ts| <= 1 && targ != "")
  }

  lemma {:induction false} GoodNames(ts: seq<Tree>, preserve: bool, j: nat)
    requires WellFormed(ts, preserve) && j < |ts|
    ensures Sendable(ts[j], preserve)
  {
    if j > 0 {
      GoodNames(ts[1..], preserve, j - 1);
    }
  }

  lemma RestApart(targ: string, isdir: bool, ts: seq<Tree>, preserve: bool, q: string)
    requires WellFormed(ts, preserve) && Target(targ, isdir, ts) && ts != [] && q in Paths(targ, isdir, ts[1..])
    ensures !Under(Np(targ, isdir, ts[0].name), q)
  {
    var j := PathsBelow(targ, ts[1..], preserve, q);
    GoodNames(ts[1..], preserve, j);
    assert ts[1..][j] == ts[j + 1];
    SiblingsApart(targ, ts[j + 1].name, ts[0].name, q);
  }

  /** Nothing but the paths of the trees changes. */
  lemma {:induction false} PlaceOutside(fs: Files, targ: string, isdir: bool, ts: seq<Tree>, preserve: bool, q: string)
    requires q !in Paths(targ, isdir, ts)
    ensures q in PlaceAll(fs, targ, isdir, ts, preserve) <==> q in fs
    ensures q in fs ==> PlaceAll(fs, targ, isdir, ts, preserve)[q] == fs[q]
    decreases ts
  {
    if ts != [] {
      var np := Np(targ, isdir, ts[0].name);
      if ts[0].Dir? {
        PlaceOutside(PlaceNode(fs, np, ts[0], preserve), np, true, ts[0].kids, preserve, q);
      }
      PlaceOutside(PlaceTree(fs, np, ts[0], preserve), targ, isdir, ts[1..], preserve, q);
    }
  }

  predicate Agree(a: Files, b: Files, ps: seq<string>) {
    forall q :: q in ps ==> (q in a <==> q in b) && (q in a ==> a[q] == b[q])
  }

  lemma {:induction false} FitsFrame(a: Files, b: Files, targ: string, isdir: bool, ts: seq<Tree>)
    requires Fits(a, targ, isdir, ts) && Agree(a, b, Paths(targ, isdir, ts))
    ensures Fits(b, targ, isdir, ts)
    decreases ts
  {
    if ts != [] {
      var np := Np(targ, isdir, ts[0].name);
      assert np in Paths(targ, isdir, ts);
      if ts[0].Dir? {
        assert Agree(a, b, Paths(np, true, ts[0].kids));
        FitsFrame(a, b, np, true, ts[0].kids);
      }
      assert Agree(a, b, Paths(targ, isdir, ts[1..]));
      FitsFrame(a, b, targ, isdir, ts[1..]);
    }
  }

  lemma {:induction false} StandFrame(a: Files, b: Files, a': Files, b': Files, targ: string, isdir: bool,
      ts: seq<Tree>, preserve: bool)
    requires Stand(a, b, targ, isdir, ts, preserve)
    requires Agree(a, a', Paths(targ, isdir, ts)) && Agree(b, b', Paths(targ, isdir, ts))
    ensures Stand(a', b', targ, isdir, ts, preserve)
    decreases ts
  {
    if ts != [] {
      var np := Np(targ, isdir, ts[0].name);
      assert np in Paths(targ, isdir, ts);
      if ts[0].Dir? {
        var ps := Paths(np, true, ts[0].kids);
        assert Agree(a, a', ps) && Agree(b, b', ps);
        StandFrame(a, b, a', b', np, true, ts[0].kids, preserve);
      }
      var qs := Paths(targ, isdir, ts[1..]);
      assert Agree(a, a', qs) && Agree(b, b', qs);
      StandFrame(a, b, a', b', targ, isdir, ts[1..], preserve);
    }
  }

  /** The steps of placing a forest: the first node, what is below it, and the
      rest do not get in each other's way. */
  lemma PlaceSteps(fs: Files, targ: string, isdir: bool, ts: seq<Tree>, preserve: bool)
    requires WellFormed(ts, preserve) && Target(targ, isdir, ts) && ts != []
    ensures var np := Np(targ, isdir, ts[0].name);
      var fs1, fs2 := PlaceNode(fs, np, ts[0], preserve), PlaceTree(fs, np, ts[0], preserve);
      var fin := PlaceAll(fs2, targ, isdir, ts[1..], preserve);
      && np != ""
      && np in fin && fin[np] == fs1[np]
      && Agree(fs, fs2, Paths(targ, isdir, ts[1..]))
      && (ts[0].Dir? ==>
            var ps := Paths(np, true, ts[0].kids);
            Agree(fs2, fin, ps) && Agree(fs1, fs, ps))
  {
    hide WellFormed, PlaceAll, Paths, Sendable, Under, Join;
    var np := Np(targ, isdir, ts[0].name);
    var fs1, fs2 := PlaceNode(fs, np, ts[0], preserve), PlaceTree(fs, np, ts[0], preserve);
    var rest := Paths(targ, isdir, ts[1..]);
    FirstName(ts, preserve, targ, isdir);
    UnderItself(np);
    forall q | q in rest
      ensures !Under(np, q) && (q in fs <==> q in fs2) && (q in fs ==> fs[q] == fs2[q])
    {
      RestApart(targ, isdir, ts, preserve, q);
      if ts[0].Dir? {
        if q in Paths(np, true, ts[0].kids) {
          KidsBelow(np, ts[0].kids, preserve, q);
        }
        PlaceOutside(fs1, np, true, ts[0].kids, preserve, q);
      }
    }
    assert np !in rest;
    PlaceOutside(fs2, targ, isdir, ts[1..], preserve, np);
    if ts[0].Dir? {
      var ps := Paths(np, true, ts[0].kids);
      forall q | q in ps
        ensures q != np && q !in rest
      {
        KidsBelow(np, ts[0].kids, preserve, q);
      }
      PlaceOutside(fs1, np, true, ts[0].kids, preserve, np);
      AgreeOutside(fs2, targ, isdir, ts[1..], preserve, ps);
    }
  }

  lemma UnderItself(p: string)
    ensures Under(p, p)
  {
  }

  lemma FirstName(ts: seq<Tree>, preserve: bool, targ: string, isdir: bool)
    requires WellFormed(ts, preserve) && Target(targ, isdir, ts) && ts != []
    ensures Np(targ, isdir, ts[0].name) != ""
    ensures WellFormed(ts[1..], preserve) && (ts[0].Dir? ==> WellFormed(ts[0].kids, preserve))
  {
  }

  lemma AgreeOutside(fs: Files, targ: string, isdir: bool, ts: seq<Tree>, preserve: bool, ps: seq<string>)
    requires forall q :: q in ps ==> q !in Paths(targ, isdir, ts)
    ensures Agree(fs, PlaceAll(fs, targ, isdir, ts, preserve), ps)
  {
    forall q | q in ps
      ensures q in PlaceAll(fs, targ, isdir, ts, preserve) <==> q in fs
      ensures q in fs ==> PlaceAll(fs, targ, isdir, ts, preserve)[q] == fs[q]
    {
      PlaceOutside(fs, targ, isdir, ts, preserve, q);
    }
  }

  /** The trees are there after the copy, whatever was there before: names,
      contents and modes. */
  lemma {:induction false} PlacedStands(fs: Files, targ: string, isdir: bool, ts: seq<Tree>, preserve: bool)
    requires WellFormed(ts, preserve) && Target(targ, isdir, ts)
    ensures Stand(PlaceAll(fs, targ, isdir, ts, preserve), fs, targ, isdir, ts, preserve)
    decreases ts
  {
    hide WellFormed, Paths, Agree, Np;
    if ts != [] {
      var np := Np(targ, isdir, ts[0].name);
      var fs1, fs2 := PlaceNode(fs, np, ts[0], preserve), PlaceTree(fs, np, ts[0], preserve);
      var fin := PlaceAll(fs2, targ, isdir, ts[1..], preserve);
      PlaceSteps(fs, targ, isdir, ts, preserve);
      FirstName(ts, preserve, targ, isdir);
      AgreeSelf(fin, Paths(targ, isdir, ts[1..]));
      PlacedStands(fs2, targ, isdir, ts[1..], preserve);
      AgreeFlip(fs, fs2, Paths(targ, isdir, ts[1..]));
      StandFrame(fin, fs2, fin, fs, targ, isdir, ts[1..], preserve);
      if ts[0].Dir? {
        PlacedStands(fs1, np, true, ts[0].kids, preserve);
        StandFrame(fs2, fs1, fin, fs, np, true, ts[0].kids, preserve);
      }
    }
  }

  lemma AgreeSelf(a: Files, ps: seq<string>)
    ensures Agree(a, a, ps)
  {
  }

  lemma AgreeFlip(a: Files, b: Files, ps: seq<string>)
    requires Agree(a, b, ps)
    ensures Agree(b, a, ps)
  {
  }

  /** What fits at the start still fits when its turn comes. */
  lemma FitsStep(fs: Files, targ: string, isdir: bool, ts: seq<Tree>, preserve: bool)
    requires WellFormed(ts, preserve) && Target(targ, isdir, ts) && ts != [] && Fits(fs, targ, isdir, ts)
    ensures var np := Np(targ, isdir, ts[0].name);
      && (ts[0].Dir? ==> Fits(PlaceNode(fs, np, ts[0], preserve), np, true, ts[0].kids))
      && Fits(PlaceTree(fs, np, ts[0], preserve), targ, isdir, ts[1..])
  {
    hide WellFormed, Paths, Agree, PlaceAll;
    var np := Np(targ, isdir, ts[0].name);
    PlaceSteps(fs, targ, isdir, ts, preserve);
    FitsFrame(fs, PlaceTree(fs, np, ts[0], preserve), targ, isdir, ts[1..]);
    if ts[0].Dir? {
      var fs1 := PlaceNode(fs, np, ts[0], preserve);
      AgreeFlip(fs1, fs, Paths(np, true, ts[0].kids));
      FitsFrame(fs, fs1, np, true, ts[0].kids);
    }
  }

  /** A directory that is there stays one. */
  lemma {:induction false} DirsStay(fs: Files, targ: string, isdir: bool, ts: seq<Tree>, preserve: bool, q: string)
    requires WellFormed(ts, preserve) && Target(targ, isdir, ts) && Fits(fs, targ, isdir, ts) && IsDir(fs, q)
    ensures IsDir(PlaceAll(fs, targ, isdir, ts, preserve), q)
    ensures ts != [] ==> IsDir(PlaceTree(fs, Np(targ, isdir, ts[0].name), ts[0], preserve), q)
    decreases ts
  {
    hide WellFormed;
    if ts != [] {
      var np := Np(targ, isdir, ts[0].name);
      FirstName(ts, preserve, targ, isdir);
      FitsStep(fs, targ, isdir, ts, preserve);
      if ts[0].Dir? {
        DirsStay(PlaceNode(fs, np, ts[0], preserve), np, true, ts[0].kids, preserve, q);
      }
      DirsStay(PlaceTree(fs, np, ts[0], preserve), targ, isdir, ts[1..], preserve, q);
    }
  }

  /** Everything that is to be made is made in a directory: the target is one, or
      it is in one or there already. */
  predicate Reachable(fs: Files, targ: string, isdir: bool, ts: seq<Tree>) {
    ts != [] ==> if isdir then IsDir(fs, targ) else targ in fs || InDir(fs, targ)
  }

  /** Since a directory is placed before what is in it. */
  lemma StaysReachable(fs: Files, targ: string, isdir: bool, ts: seq<Tree>, preserve: bool)
    requires WellFormed(ts, preserve) && Target(targ, isdir, ts) && Fits(fs, targ, isdir, ts) && ts != []
    requires Reachable(fs, targ, isdir, ts)
    ensures var np := Np(targ, isdir, ts[0].name);
      && (np in fs || InDir(fs, np))
      && Reachable(PlaceTree(fs, np, ts[0], preserve), targ, isdir, ts[1..])
  {
    hide PlaceTree, Fits, InDir;
    if isdir {
      JoinedInDir(fs, targ, ts[0].name);
      DirsStay(fs, targ, isdir, ts, preserve, targ);
    }
  }
}
