/** The sending side of pdcp: src/pdsh/pcp_client.c, for runs in which every
    response is the one that says that all is well. */
module PcpClient {
  import opened PcpModel
  import opened Sequences

  const EXIT_SUBDIR_FILENAME := "a!b@c#d$"

  /** struct pcp_filename */
  datatype PcpFilename = PcpFilename(filename: string, userSpecified: bool)

  /** What stat, opendir and open find at a path; `entries` as readdir gives them. */
  datatype Inode =
    | File(mode: nat, mtime: nat, atime: nat, data: string)
    | Directory(mode: nat, mtime: nat, atime: nat, entries: seq<string>)

  type Source = map<string, Inode>

  function Visible(entries: seq<string>): seq<string> {
    if entries == [] then [] else
      (if entries[0] == "." || entries[0] == ".." then [] else [entries[0]]) + Visible(entries[1..])
  }

  function Names(ts: seq<Tree>): seq<string> {
    if ts == [] then [] else [ts[0].name] + Names(ts[1..])
  }

  /** The tree that an object is, under a name; without what is below it. */
  function Alone(i: Inode, name: string): Tree {
    if i.File? then Reg(name, i.mode, i.mtime, i.atime, i.data) else Dir(name, i.mode, i.mtime, i.atime, [])
  }

  /** A tree is what is found at `path`. */
  predicate IsAt(src: Source, path: string, t: Tree)
    decreases t, 0
  {
    && path in src
    && (if t.Reg? then src[path].File? && Alone(src[path], t.name) == t
        else src[path].Directory? && Alone(src[path], t.name) == t.(kids := [])
             && Visible(src[path].entries) == Names(t.kids) && AreIn(src, path, t.kids))
  }

  /** Trees are found by their names in the directory `dir`. */
  predicate AreIn(src: Source, dir: string, ts: seq<Tree>)
    decreases ts
  {
    ts != [] ==> '/' !in ts[0].name && IsAt(src, dir + "/" + ts[0].name, ts[0]) && AreIn(src, dir, ts[1..])
  }

  /** The list that the trees are flattened into. */
  function Flat(dir: string, ts: seq<Tree>): seq<PcpFilename>
    decreases ts
  {
    if ts == [] then [] else
      var file := dir + "/" + ts[0].name;
      [PcpFilename(file, false)] + Below(file, ts[0]) + Flat(dir, ts[1..])
  }

  function Below(file: string, t: Tree): seq<PcpFilename>
    decreases t, 0
  {
    if t.Reg? then [] else Flat(file, t.kids) + [PcpFilename(EXIT_SUBDIR_FILENAME, false)]
  }

  /** A list to which names are appended. */
  class List {
    var items: seq<PcpFilename>

    constructor ()
      ensures items == []
    {
      items := [];
    }

    method Append(pf: PcpFilename)
      modifies this
      ensures items == old(items) + [pf]
    {
      items := items + [pf];
    }
  }

  /** _rexpand_dir, for a directory with the trees `kids` in it. */
  method RexpandDir(src: Source, list: List, name: string, ghost kids: seq<Tree>)
    requires name in src && src[name].Directory?
    requires Visible(src[name].entries) == Names(kids) && AreIn(src, name, kids)
    modifies list
    ensures list.items == old(list.items) + Flat(name, kids) + [PcpFilename(EXIT_SUBDIR_FILENAME, false)]
    decreases kids
  {
    var entries := src[name].entries;
    ghost var k := 0;
    assert entries[0..] == entries && kids[0..] == kids;
    hide Visible, Names, AreIn, IsAt, Flat;
    for i := 0 to |entries|
      invariant k <= |kids| && Visible(entries[i..]) == Names(kids[k..]) && AreIn(src, name, kids[k..])
      invariant list.items + Flat(name, kids[k..]) == old(list.items) + Flat(name, kids)
    {
      NextEntry(src, name, entries, i, kids, k);
      if entries[i] == "." || entries[i] == ".." {
        continue;
      }
      ghost var items := list.items;
      var file := name + "/" + entries[i];
      list.Append(PcpFilename(file, false));
      if src[file].Directory? {
        RexpandDir(src, list, file, kids[k].kids);
      }
      Regroup(items, [PcpFilename(file, false)], Below(file, kids[k]), Flat(name, kids[k + 1..]));
      k := k + 1;
    }
    NoMore(entries, name, kids, k);
    list.Append(PcpFilename(EXIT_SUBDIR_FILENAME, false));
  }

  lemma NextEntry(src: Source, dir: string, entries: seq<string>, i: nat, kids: seq<Tree>, k: nat)
    requires i < |entries| && k <= |kids| && Visible(entries[i..]) == Names(kids[k..]) && AreIn(src, dir, kids[k..])
    ensures if entries[i] == "." || entries[i] == ".." then Visible(entries[i + 1..]) == Names(kids[k..])
      else
        && k < |kids| && Visible(entries[i + 1..]) == Names(kids[k + 1..]) && AreIn(src, dir, kids[k + 1..])
        && kids[k].name == entries[i]
        && var file := dir + "/" + entries[i];
          && file in src && (src[file].Directory? <==> kids[k].Dir?)
          && (kids[k].Dir? ==> Visible(src[file].entries) == Names(kids[k].kids) && AreIn(src, file, kids[k].kids))
          && Flat(dir, kids[k..]) == [PcpFilename(file, false)] + Below(file, kids[k]) + Flat(dir, kids[k + 1..])
  {
    hide Flat;
    assert entries[i..][1..] == entries[i + 1..];
    if entries[i] != "." && entries[i] != ".." {
      assert Visible(entries[i..]) == [entries[i]] + Visible(entries[i + 1..]);
      assert kids[k..][1..] == kids[k + 1..];
      assert ([entries[i]] + Visible(entries[i + 1..]))[1..] == Visible(entries[i + 1..]);
      assert Names(kids[k..])[0] == kids[k].name && Names(kids[k..])[1..] == Names(kids[k + 1..]);
      FlatNext(dir, kids, k);
    } else {
      assert Visible(entries[i..]) == [] + Visible(entries[i + 1..]) == Visible(entries[i + 1..]);
    }
  }

  lemma FlatNext(dir: string, kids: seq<Tree>, k: nat)
    requires k < |kids|
    ensures var file := dir + "/" + kids[k].name;
      Flat(dir, kids[k..]) == [PcpFilename(file, false)] + Below(file, kids[k]) + Flat(dir, kids[k + 1..])
  {
    assert kids[k..][1..] == kids[k + 1..];
  }

  lemma NoMore(entries: seq<string>, dir: string, kids: seq<Tree>, k: nat)
    requires k <= |kids| && Visible(entries[|entries|..]) == Names(kids[k..])
    ensures Flat(dir, kids[k..]) == []
  {
  }

  lemma Regroup<T>(a: seq<T>, b: seq<T>, c: seq<T>, d: seq<T>)
    ensures a + (b + c + d) == a + b + c + d
  {
  }

  /** The trees are what is found at the paths that the user gave. */
  predicate Given(src: Source, infiles: seq<string>, ts: seq<Tree>) {
    && |infiles| == |ts|
    && forall i :: 0 <= i < |ts| ==> IsAt(src, infiles[i], ts[i])
  }

  /** None of the paths is the flag that ends a directory. */
  predicate NoFlag(infiles: seq<string>) {
    EXIT_SUBDIR_FILENAME !in infiles
  }

  function FlatAll(infiles: seq<string>, ts: seq<Tree>): seq<PcpFilename>
    requires |infiles| == |ts|
  {
    if ts == [] then [] else
      FlatAll(infiles[..|ts| - 1], ts[..|ts| - 1])
      + ([PcpFilename(infiles[|ts| - 1], true)] + Below(infiles[|ts| - 1], ts[|ts| - 1]))
  }

  /** pcp_expand_dirs */
  method ExpandDirs(src: Source, infiles: seq<string>, ghost ts: seq<Tree>) returns (list: List)
    requires Given(src, infiles, ts)
    ensures fresh(list) && list.items == FlatAll(infiles, ts)
  {
    hide Below, IsAt, Names, Visible, AreIn;
    list := new List();
    for i := 0 to |infiles|
      invariant fresh(list) && list.items == FlatAll(infiles[..i], ts[..i])
    {
      var name := infiles[i];
      ghost var items := list.items;
      assert infiles[..i + 1][..i] == infiles[..i] && ts[..i + 1][..i] == ts[..i];
      list.Append(PcpFilename(name, true));
      AtPath(src, name, ts[i]);
      if src[name].Directory? {
        RexpandDir(src, list, name, ts[i].kids);
      }
      Regroup(items, [PcpFilename(name, true)], Below(name, ts[i]), []);
    }
    assert infiles[..|infiles|] == infiles && ts[..|ts|] == ts;
  }

  lemma AtPath(src: Source, path: string, t: Tree)
    requires IsAt(src, path, t)
    ensures path in src && (src[path].Directory? <==> t.Dir?) && (t.Reg? ==> Below(path, t) == [])
    ensures t.Dir? ==> Visible(src[path].entries) == Names(t.kids) && AreIn(src, path, t.kids)
    ensures t.Dir? ==> Below(path, t) == Flat(path, t.kids) + [PcpFilename(EXIT_SUBDIR_FILENAME, false)]
  {
  }

  /** xbasename */
  function BaseName(path: string): string {
    if path == "" || path[|path| - 1] == '/' then "" else BaseName(path[..|path| - 1]) + [path[|path| - 1]]
  }

  lemma {:induction false} BaseNameJoined(dir: string, name: string)
    requires '/' !in name
    ensures BaseName(dir + "/" + name) == name
  {
    var p := dir + "/" + name;
    if name != "" {
      var n := |name| - 1;
      assert p[..|p| - 1] == dir + "/" + name[..n];
      BaseNameJoined(dir, name[..n]);
    }
  }

  // ---- Sending

  /** The name that goes on the wire: with the host behind it for what the user
      named in a copy to this side. */
  function OutputName(pf: PcpFilename, pcpClient: bool, host: string): string {
    BaseName(if pcpClient && pf.userSpecified then pf.filename + "." + host else pf.filename)
  }

  /** `n` is what stands behind the last slash of a path, or all of it. */
  ghost predicate LastPart(path: string, n: string) {
    '/' !in n && (path == n || exists d: string :: path == d + "/" + n)
  }

  lemma {:induction false} BaseNameAlone(name: string)
    requires '/' !in name
    ensures BaseName(name) == name
  {
    if name != "" {
      BaseNameAlone(name[..|name| - 1]);
    }
  }

  lemma BaseNameIs(path: string, n: string)
    requires LastPart(path, n)
    ensures BaseName(path) == n
  {
    if path == n {
      BaseNameAlone(n);
    } else {
      var d :| path == d + "/" + n;
      BaseNameJoined(d, n);
    }
  }

  lemma WithHost(path: string, n: string, host: string)
    requires LastPart(path, n) && '/' !in host
    ensures LastPart(path + "." + host, n + "." + host)
  {
    if path != n {
      var d :| path == d + "/" + n;
      assert path + "." + host == d + "/" + (n + "." + host);
    }
  }

  /** What the user named goes out under its last part, in a copy to this side with
      a dot and the host behind it; all else under its last part. */
  lemma OutputNames(path: string, n: string, byUser: bool, pcpClient: bool, host: string)
    requires LastPart(path, n) && '/' !in host
    ensures OutputName(PcpFilename(path, byUser), pcpClient, host) == if pcpClient && byUser then n + "." + host else n
  {
    BaseNameIs(path, n);
    WithHost(path, n, host);
    BaseNameIs(path + "." + host, n + "." + host);
  }

  /** So what different hosts send for one path does not land on one another. */
  lemma HostsApart(path: string, n: string, host: string, other: string)
    requires LastPart(path, n) && '/' !in host && '/' !in other
    ensures var pf := PcpFilename(path, true);
      OutputName(pf, true, host) == OutputName(pf, true, other) <==> host == other
  {
    hide OutputName, LastPart;
    OutputNames(path, n, true, true, host);
    OutputNames(path, n, true, true, other);
    assert (n + "." + host)[|n| + 1..] == host && (n + "." + other)[|n| + 1..] == other;
  }

  /** The exchange for one entry of the list. */
  function EntryEvents(src: Source, pf: PcpFilename, name: string, preserve: bool): seq<Event>
    requires pf.filename != EXIT_SUBDIR_FILENAME ==> pf.filename in src
  {
    if pf.filename == EXIT_SUBDIR_FILENAME then Exit()
    else
      var t := Alone(src[pf.filename], name);
      Head(t, preserve) + (if t.Reg? then Contents(t) else [])
  }

  predicate AllFound(src: Source, items: seq<PcpFilename>) {
    forall i :: 0 <= i < |items| && items[i].filename != EXIT_SUBDIR_FILENAME ==> items[i].filename in src
  }

  function ListEvents(src: Source, items: seq<PcpFilename>, preserve: bool, pcpClient: bool, host: string): seq<Event>
    requires AllFound(src, items)
  {
    if items == [] then [] else
      ListEvents(src, items[..|items| - 1], preserve, pcpClient, host)
      + EntryEvents(src, items[|items| - 1], OutputName(items[|items| - 1], pcpClient, host), preserve)
  }

  class Client {
    const src: Source
    const preserve: bool
    const pcpClient: bool
    const host: string
    var trace: seq<Event>

    constructor (src: Source, preserve: bool, pcpClient: bool, host: string)
      ensures this.src == src && this.preserve == preserve && this.pcpClient == pcpClient && this.host == host
      ensures trace == []
    {
      this.src, this.preserve, this.pcpClient, this.host, trace := src, preserve, pcpClient, host, [];
    }

    /** _pcp_write; write may take less than it is given. */
    method Write(buf: string)
      modifies this
      ensures trace == old(trace) + Bytes(buf)
    {
      var bufp := 0;
      while bufp < |buf|
        invariant 0 <= bufp <= |buf| && trace == old(trace) + Bytes(buf[..bufp])
      {
        var outbytes :| 0 < outbytes <= |buf| - bufp;
        assert buf[..bufp + outbytes] == buf[..bufp] + buf[bufp..bufp + outbytes];
        BytesConcat(buf[..bufp], buf[bufp..bufp + outbytes]);
        trace := trace + Bytes(buf[bufp..bufp + outbytes]);
        bufp := bufp + outbytes;
      }
      assert buf[..bufp] == buf;
    }

    /** pcp_response, when it is the one that is hoped for */
    method Response()
      modifies this
      ensures trace == old(trace) + [Ack]
    {
      trace := trace + [Ack];
    }

    /** _pcp_send_file_data; read may return less than a buffer. */
    method SendFileData(data: string)
      modifies this
      ensures trace == old(trace) + Bytes(data)
    {
      var at := 0;
      while true
        invariant 0 <= at <= |data| && trace == old(trace) + Bytes(data[..at])
        decreases |data| - at
      {
        var inbytes :| 0 <= inbytes <= BUFSIZ && inbytes <= |data| - at && (inbytes == 0 ==> at == |data|);
        if inbytes > 0 {
          assert data[..at + inbytes] == data[..at] + data[at..at + inbytes];
          BytesConcat(data[..at], data[at..at + inbytes]);
          Write(data[at..at + inbytes]);
          at := at + inbytes;
        } else {
          break;
        }
      }
      assert data[..at] == data;
    }

    /** pcp_sendfile */
    method SendFile(file: string, outputFile: string)
      requires file in src
      modifies this
      ensures var t := Alone(src[file], BaseName(outputFile));
        trace == old(trace) + (Head(t, preserve) + (if t.Reg? then Contents(t) else []))
    {
      hide BaseName, Head, Contents;
      var t := Alone(src[file], BaseName(outputFile));
      SendHead(t);
      if t.Reg? {
        Assoc(old(trace), Head(t, preserve), Contents(t));
        SendContents(t);
      }
    }

    /** Steps 1 to 4: the records that announce the object. */
    method SendHead(t: Tree)
      modifies this
      ensures trace == old(trace) + Head(t, preserve)
    {
      hide TimeLine, ControlLine, Bytes;
      ghost var times := if preserve then Bytes(TimeLine(t)) + [Ack] else [];
      if preserve {
        Write(TimeLine(t));
        Response();
      }
      assert trace == old(trace) + times;
      Write(ControlLine(t));
      Assoc(old(trace), times, Bytes(ControlLine(t)));
      Assoc(old(trace), times + Bytes(ControlLine(t)), [Ack]);
      Response();
    }

    /** Steps 5 to 7: the data of a file. */
    method SendContents(t: Tree)
      requires t.Reg?
      modifies this
      ensures trace == old(trace) + Contents(t)
    {
      SendFileData(t.data);
      Write([NUL]);
      Assoc(old(trace), Bytes(t.data), Bytes([NUL]));
      Assoc(old(trace), Bytes(t.data) + Bytes([NUL]), [Ack]);
      Response();
    }

    /** _pcp_sendfile */
    method SendEntry(pf: PcpFilename)
      requires pf.filename != EXIT_SUBDIR_FILENAME ==> pf.filename in src
      modifies this
      ensures trace == old(trace) + EntryEvents(src, pf, OutputName(pf, pcpClient, host), preserve)
      ensures forall n :: LastPart(pf.filename, n) && '/' !in host ==>
        var name := if pcpClient && pf.userSpecified then n + "." + host else n;
        trace == old(trace) + EntryEvents(src, pf, name, preserve)
    {
      forall n | LastPart(pf.filename, n) && '/' !in host
        ensures OutputName(pf, pcpClient, host) == if pcpClient && pf.userSpecified then n + "." + host else n
      {
        OutputNames(pf.filename, n, pf.userSpecified, pcpClient, host);
      }
      if pf.filename == EXIT_SUBDIR_FILENAME {
        Write("E\n");
        Response();
        return;
      }
      var outputFile := if pcpClient && pf.userSpecified then pf.filename + "." + host else pf.filename;
      SendFile(pf.filename, outputFile);
    }

    /** pcp_client */
    method Run(infiles: seq<PcpFilename>)
      requires AllFound(src, infiles)
      modifies this
      ensures trace == old(trace) + [Ack] + ListEvents(src, infiles, preserve, pcpClient, host)
    {
      hide EntryEvents, OutputName;
      Response();
      for i := 0 to |infiles|
        invariant trace == old(trace) + [Ack] + ListEvents(src, infiles[..i], preserve, pcpClient, host)
      {
        assert infiles[..i + 1][..i] == infiles[..i];
        SendEntry(infiles[i]);
      }
      assert infiles[..|infiles|] == infiles;
    }
  }

  // ---- The list means the trees

  lemma {:induction false} ListConcat(src: Source, a: seq<PcpFilename>, b: seq<PcpFilename>, preserve: bool,
      pcpClient: bool, host: string)
    requires AllFound(src, a) && AllFound(src, b)
    ensures AllFound(src, a + b)
    ensures ListEvents(src, a + b, preserve, pcpClient, host)
      == ListEvents(src, a, preserve, pcpClient, host) + ListEvents(src, b, preserve, pcpClient, host)
  {
    hide EntryEvents, OutputName;
    if b == [] {
      assert a + b == a;
    } else {
      var n := |b| - 1;
      ListConcat(src, a, b[..n], preserve, pcpClient, host);
      assert (a + b)[..|a + b| - 1] == a + b[..n];
    }
  }

  lemma ListOne(src: Source, pf: PcpFilename, preserve: bool, pcpClient: bool, host: string)
    requires pf.filename != EXIT_SUBDIR_FILENAME ==> pf.filename in src
    ensures AllFound(src, [pf])
    ensures ListEvents(src, [pf], preserve, pcpClient, host)
      == EntryEvents(src, pf, OutputName(pf, pcpClient, host), preserve)
  {
    hide EntryEvents, OutputName;
    assert [pf][..0] == [];
  }

  lemma NoSlashInExit(file: string, name: string)
    ensures file + "/" + name != EXIT_SUBDIR_FILENAME
  {
    var p := file + "/" + name;
    assert p[|file|] == '/';
    assert forall i :: 0 <= i < |EXIT_SUBDIR_FILENAME| ==> EXIT_SUBDIR_FILENAME[i] != '/';
  }

  /** The flattened list is sent as the trees that it was made from. */
  lemma {:induction false} FlatEvents(src: Source, dir: string, ts: seq<Tree>, preserve: bool, pcpClient: bool,
      host: string)
    requires AreIn(src, dir, ts)
    ensures AllFound(src, Flat(dir, ts))
    ensures ListEvents(src, Flat(dir, ts), preserve, pcpClient, host) == Events(ts, preserve)
    decreases ts
  {
    hide EntryEvents, ListEvents, Head, Contents, Exit;
    if ts == [] {
      NoEvents(src, preserve, pcpClient, host);
    } else {
      var file := dir + "/" + ts[0].name;
      NoSlashInExit(dir, ts[0].name);
      BaseNameJoined(dir, ts[0].name);
      TreeEvents(src, PcpFilename(file, false), ts[0], preserve, pcpClient, host);
      FlatEvents(src, dir, ts[1..], preserve, pcpClient, host);
      ListConcat(src, [PcpFilename(file, false)] + Below(file, ts[0]), Flat(dir, ts[1..]), preserve, pcpClient, host);
    }
  }

  lemma NoEvents(src: Source, preserve: bool, pcpClient: bool, host: string)
    ensures AllFound(src, []) && ListEvents(src, [], preserve, pcpClient, host) == []
  {
  }

  /** An entry for a tree, with the entries for what is below it. */
  function OneTree(t: Tree, preserve: bool): seq<Event> {
    Head(t, preserve) + (if t.Reg? then Contents(t) else Events(t.kids, preserve) + Exit())
  }

  lemma TreeEvents(src: Source, pf: PcpFilename, t: Tree, preserve: bool, pcpClient: bool, host: string)
    requires IsAt(src, pf.filename, t) && pf.filename != EXIT_SUBDIR_FILENAME
      && OutputName(pf, pcpClient, host) == t.name
    ensures AllFound(src, [pf] + Below(pf.filename, t))
    ensures ListEvents(src, [pf] + Below(pf.filename, t), preserve, pcpClient, host) == OneTree(t, preserve)
    decreases t, 0
  {
    hide ListEvents, Contents, Exit, OutputName, Events;
    var exit := PcpFilename(EXIT_SUBDIR_FILENAME, false);
    ListOne(src, pf, preserve, pcpClient, host);
    if t.Reg? {
      assert [pf] + Below(pf.filename, t) == [pf];
      assert Alone(src[pf.filename], t.name) == t;
    } else {
      FlatEvents(src, pf.filename, t.kids, preserve, pcpClient, host);
      ListOne(src, exit, preserve, pcpClient, host);
      ListConcat(src, Flat(pf.filename, t.kids), [exit], preserve, pcpClient, host);
      ListConcat(src, [pf], Below(pf.filename, t), preserve, pcpClient, host);
      HeadAlone(t, preserve);
    }
  }

  lemma HeadAlone(t: Tree, preserve: bool)
    requires t.Dir?
    ensures Head(t.(kids := []), preserve) == Head(t, preserve)
  {
  }

  /** The output names are those of the trees. */
  predicate WellNamed(infiles: seq<string>, ts: seq<Tree>, pcpClient: bool, host: string)
    requires |infiles| == |ts|
  {
    forall i :: 0 <= i < |ts| ==> OutputName(PcpFilename(infiles[i], true), pcpClient, host) == ts[i].name
  }

  /** At some event that both have the two are different. */
  predicate Diverge(a: seq<Event>, b: seq<Event>) {
    exists p :: 0 <= p < |a| && p < |b| && a[p] != b[p]
  }

  /** The whole list is sent as the trees that the user named if and only if none
      of their paths is the flag that ends a directory. */
  lemma GivenEvents(src: Source, infiles: seq<string>, ts: seq<Tree>, preserve: bool, pcpClient: bool, host: string)
    requires Given(src, infiles, ts) && WellNamed(infiles, ts, pcpClient, host)
    ensures AllFound(src, FlatAll(infiles, ts))
    ensures ListEvents(src, FlatAll(infiles, ts), preserve, pcpClient, host) == Events(ts, preserve)
      <==> NoFlag(infiles)
  {
    hide ListEvents, Events, FlatAll, Given, WellNamed;
    SentOrNot(src, infiles, ts, preserve, pcpClient, host);
  }

  /** Where the flag comes first, the exchange goes another way. */
  lemma {:induction false} SentOrNot(src: Source, infiles: seq<string>, ts: seq<Tree>, preserve: bool, pcpClient: bool,
      host: string)
    requires Given(src, infiles, ts) && WellNamed(infiles, ts, pcpClient, host)
    ensures AllFound(src, FlatAll(infiles, ts))
    ensures var sent := ListEvents(src, FlatAll(infiles, ts), preserve, pcpClient, host);
      if NoFlag(infiles) then sent == Events(ts, preserve) else Diverge(sent, Events(ts, preserve))
  {
    hide ListEvents, OutputName, Below, IsAt, Events, OneTree;
    if ts == [] {
      NoEvents(src, preserve, pcpClient, host);
      EventsNone(preserve);
    } else {
      var n := |ts| - 1;
      var pf := PcpFilename(infiles[n], true);
      SentOrNot(src, infiles[..n], ts[..n], preserve, pcpClient, host);
      assert infiles == infiles[..n] + [infiles[n]] && ts == ts[..n] + [ts[n]];
      var more := ListOrFlag(src, pf, ts[n], preserve, pcpClient, host);
      ListConcat(src, FlatAll(infiles[..n], ts[..n]), [pf] + Below(infiles[n], ts[n]), preserve, pcpClient, host);
      EventsSnoc(ts[..n], ts[n], preserve);
      var sent := ListEvents(src, FlatAll(infiles[..n], ts[..n]), preserve, pcpClient, host);
      if NoFlag(infiles[..n]) {
        if infiles[n] == EXIT_SUBDIR_FILENAME {
          DivergeAt(sent, more, OneTree(ts[n], preserve));
        }
      } else {
        StillDiverge(sent, Events(ts[..n], preserve), more, OneTree(ts[n], preserve));
      }
    }
  }

  lemma DivergeAt(a: seq<Event>, b: seq<Event>, c: seq<Event>)
    requires b != [] && c != [] && b[0] != c[0]
    ensures Diverge(a + b, a + c)
  {
    assert (a + b)[|a|] == b[0] && (a + c)[|a|] == c[0];
  }

  lemma StillDiverge(a: seq<Event>, b: seq<Event>, c: seq<Event>, d: seq<Event>)
    requires Diverge(a, b)
    ensures Diverge(a + c, b + d)
  {
    var p :| 0 <= p < |a| && p < |b| && a[p] != b[p];
    assert (a + c)[p] == a[p] && (b + d)[p] == b[p];
  }

  /** What is sent for one path of the user: its tree, or the end of a directory
      where the tree would be announced. */
  lemma ListOrFlag(src: Source, pf: PcpFilename, t: Tree, preserve: bool, pcpClient: bool, host: string)
    returns (more: seq<Event>)
    requires IsAt(src, pf.filename, t) && OutputName(pf, pcpClient, host) == t.name
    ensures AllFound(src, [pf] + Below(pf.filename, t))
    ensures more == ListEvents(src, [pf] + Below(pf.filename, t), preserve, pcpClient, host)
    ensures if pf.filename != EXIT_SUBDIR_FILENAME then more == OneTree(t, preserve)
      else more != [] && OneTree(t, preserve) != [] && more[0] != OneTree(t, preserve)[0]
  {
    hide ListEvents, OutputName, Events;
    if pf.filename != EXIT_SUBDIR_FILENAME {
      TreeEvents(src, pf, t, preserve, pcpClient, host);
    } else {
      BelowFound(src, pf.filename, t, preserve, pcpClient, host);
      ListOne(src, pf, preserve, pcpClient, host);
      ListConcat(src, [pf], Below(pf.filename, t), preserve, pcpClient, host);
      assert Exit()[0] == Byte('E');
      HeadStarts(t, preserve);
    }
    more := ListEvents(src, [pf] + Below(pf.filename, t), preserve, pcpClient, host);
  }

  lemma BelowFound(src: Source, path: string, t: Tree, preserve: bool, pcpClient: bool, host: string)
    requires IsAt(src, path, t)
    ensures AllFound(src, Below(path, t))
  {
    AtPath(src, path, t);
    if t.Dir? {
      hide IsAt;
      FlatEvents(src, path, t.kids, preserve, pcpClient, host);
    }
  }

  lemma HeadStarts(t: Tree, preserve: bool)
    ensures Head(t, preserve) != [] && Head(t, preserve)[0] in [Byte('T'), Byte('C'), Byte('D')]
  {
  }

  /** A file of that name, named by the user for a copy to the other side, is not
      sent at all. */
  lemma FlagIsNoFile(mode: nat, mtime: nat, atime: nat, data: string, preserve: bool, host: string)
    ensures var name := EXIT_SUBDIR_FILENAME;
      var src, ts := map[name := File(mode, mtime, atime, data)], [Reg(name, mode, mtime, atime, data)];
      && Given(src, [name], ts) && WellNamed([name], ts, false, host) && AllFound(src, FlatAll([name], ts))
      && ListEvents(src, FlatAll([name], ts), preserve, false, host) == Exit() != Events(ts, preserve)
  {
    var name := EXIT_SUBDIR_FILENAME;
    var src, t := map[name := File(mode, mtime, atime, data)], Reg(name, mode, mtime, atime, data);
    var pf := PcpFilename(name, true);
    NoSlash(name);
    assert FlatAll([name], [t]) == [pf] by {
      assert FlatAll([name], [t]) == FlatAll([], []) + ([pf] + []);
    }
    ListOne(src, pf, preserve, false, host);
    hide ListEvents, Events, OutputName;
    GivenEvents(src, [name], [t], preserve, false, host);
  }

  lemma {:induction false} NoSlash(name: string)
    requires '/' !in name
    ensures BaseName(name) == name
  {
    if name != "" {
      NoSlash(name[..|name| - 1]);
    }
  }

  lemma EventsNone(preserve: bool)
    ensures Events([], preserve) == []
  {
  }

  lemma {:induction false} EventsSnoc(ts: seq<Tree>, t: Tree, preserve: bool)
    ensures Events(ts + [t], preserve) == Events(ts, preserve) + OneTree(t, preserve)
    decreases |ts|
  {
    hide Head, Contents, Exit;
    if ts == [] {
      assert (ts + [t])[1..] == [];
      assert ts + [t] == [t];
      EventsNone(preserve);
    } else {
      EventsSnoc(ts[1..], t, preserve);
      assert (ts + [t])[0] == ts[0] && (ts + [t])[1..] == ts[1..] + [t];
      Assoc(OneTree(ts[0], preserve), Events(ts[1..], preserve), OneTree(t, preserve));
    }
  }
}
