/** The two sides of a copy together. */
module PcpCopy {
  // What the client sends is what the server takes, neither waits for ever for the
  // other, and the tree is there again.

  import opened PcpModel
  import opened PcpClient
  import opened PcpServer

  // ---- Two processes that follow one script

  function Acks(es: seq<Event>): nat {
    if es == [] then 0 else (if es[0].Ack? then 1 else 0) + Acks(es[1..])
  }

  lemma {:induction false} AcksConcat(a: seq<Event>, b: seq<Event>)
    ensures Acks(a + b) == Acks(a) + Acks(b)
  {
    if a == [] {
      assert a + b == b;
    } else {
      assert (a + b)[0] == a[0] && (a + b)[1..] == a[1..] + b;
      AcksConcat(a[1..], b);
    }
  }

  /** The client has done `c` events of its script, the server `s` of the same
      one; a pipe that holds `cap` of them leads either way.  A byte can be sent
      while there is room for it; an acknowledgement must have come. */
  predicate ClientCan(es: seq<Event>, c: nat, s: nat, cap: nat)
    requires c <= |es| && s <= |es|
  {
    c < |es| && if es[c].Ack? then Acks(es[..c]) < Acks(es[..s]) else |Out(es[..c])| - |Out(es[..s])| < cap
  }

  /** And the other way round. */
  predicate ServerCan(es: seq<Event>, c: nat, s: nat, cap: nat)
    requires c <= |es| && s <= |es|
  {
    s < |es| && if es[s].Byte? then |Out(es[..s])| < |Out(es[..c])| else Acks(es[..s]) - Acks(es[..c]) < cap
  }

  lemma Further(es: seq<Event>, i: nat, j: nat)
    requires i < j <= |es|
    ensures Acks(es[..i]) + (if es[i].Ack? then 1 else 0) <= Acks(es[..j])
    ensures Out(es[..i]) + (if es[i].Byte? then [es[i].c] else "") <= Out(es[..j])
  {
    var a, b, c := es[..i], [es[i]], es[i + 1..j];
    assert es[..j] == a + b + c;
    assert b[1..] == [];
    AcksConcat(a, b);
    AcksConcat(a + b, c);
    OutConcat(a, b);
    OutConcat(a + b, c);
  }

  /** However far each of them has come, and however little the pipes hold, one
      of them can go on until both have done everything: there is no deadlock. */
  lemma NeverStuck(es: seq<Event>, c: nat, s: nat, cap: nat)
    requires c <= |es| && s <= |es| && (c < |es| || s < |es|) && cap > 0
    ensures ClientCan(es, c, s, cap) || ServerCan(es, c, s, cap)
  {
    hide Acks, Out;
    if c < s {
      Further(es, c, s);
    } else if s < c {
      Further(es, s, c);
    }
  }

  /** And what the server reads next is the byte of its script. */
  lemma RightByte(es: seq<Event>, c: nat, s: nat, cap: nat)
    requires c <= |es| && s < |es| && es[s].Byte? && ServerCan(es, c, s, cap)
    ensures Out(es[..c])[|Out(es[..s])|] == es[s].c
  {
    hide Acks, Out;
    if c < s {
      Further(es, c, s);
    } else if s < c {
      Further(es, s, c);
    }
  }

  // ---- A copy

  /** What is required for a copy to run without an error. */
  ghost predicate Copyable(src: Source, infiles: seq<string>, ts: seq<Tree>, preserve: bool, pcpClient: bool,
      host: string, fs: Files, outfile: string)
  {
    && Given(src, infiles, ts) && NoFlag(infiles) && WellFormed(ts, preserve)
    && WellNamed(infiles, ts, pcpClient, host)
    && Target(outfile, IsDir(fs, outfile), ts) && Fits(fs, outfile, IsDir(fs, outfile), ts)
    && Reachable(fs, outfile, IsDir(fs, outfile), ts)
  }

  // ---- What the user finds

  /** `rest` names, entry by entry, something in what is at a path. */
  ghost predicate Found(src: Source, path: string, rest: seq<string>)
    decreases rest
  {
    && path in src
    && (rest != [] ==>
          && src[path].Directory? && rest[0] in src[path].entries && rest[0] != "." && rest[0] != ".."
          && Found(src, path + "/" + rest[0], rest[1..]))
  }

  function Descend(path: string, rest: seq<string>): string
    decreases rest
  {
    if rest == [] then path else Descend(path + "/" + rest[0], rest[1..])
  }

  /** What stands at a path now is what was found in the source.  What was there
      has kept its mode, unless modes are preserved. */
  ghost predicate IsCopy(o: Inode, was: Files, now: Files, path: string, preserve: bool) {
    && path in now && (now[path].RegNode? <==> o.File?)
    && (o.File? ==> now[path].data == o.data)
    && now[path].mode == if path in was && !preserve then was[path].mode else o.mode
  }

  /** Where a path that the user gave comes to stand: if the target is a directory,
      in it, under its last part `n`, with the host behind it in a copy to this side. */
  function PlaceOf(outfile: string, isdir: bool, n: string, pcpClient: bool, host: string): string {
    if !isdir then outfile
    else (if outfile == "" then "" else outfile + "/") + n + (if pcpClient then "." + host else "")
  }

  /** All that is found at and below the paths that the user gave stands there. */
  ghost predicate AllCopied(src: Source, infiles: seq<string>, preserve: bool, pcpClient: bool, host: string,
      was: Files, now: Files, outfile: string)
  {
    forall i, n, rest :: 0 <= i < |infiles| && LastPart(infiles[i], n) && Found(src, infiles[i], rest) ==>
      CopiedTo(src, infiles[i], rest, was, now, PlaceOf(outfile, IsDir(was, outfile), n, pcpClient, host), preserve)
  }

  ghost predicate CopiedTo(src: Source, path: string, rest: seq<string>, was: Files, now: Files, place: string,
      preserve: bool)
  {
    Descend(path, rest) in src && IsCopy(src[Descend(path, rest)], was, now, Descend(place, rest), preserve)
  }

  /** The whole way: the list, the client, the wire and the server.  The server's
      side of the exchange is the client's; the trees stand in the file system,
      and nothing else in it has changed. */
  method Copy(src: Source, infiles: seq<string>, ghost ts: seq<Tree>, preserve: bool, pcpClient: bool, host: string,
              fs: Files, outfile: string, targetIsDir: bool, blksize: nat)
    returns (fs': Files, sent: seq<Event>, taken: seq<Event>)
    requires Copyable(src, infiles, ts, preserve, pcpClient, host, fs, outfile)
    requires targetIsDir ==> IsDir(fs, outfile)
    ensures sent == taken == [Ack] + Events(ts, preserve)
    ensures Stand(fs', fs, outfile, IsDir(fs, outfile), ts, preserve)
    ensures '/' !in host ==> AllCopied(src, infiles, preserve, pcpClient, host, fs, fs', outfile)
    ensures forall q :: q !in Paths(outfile, IsDir(fs, outfile), ts) ==>
      (q in fs' <==> q in fs) && (q in fs ==> fs'[q] == fs[q])
  {
    hide Events, WellFormed, Fits, Stand, PlaceAll, Paths, ListEvents, WellNamed, Given, NoFlag, FlatAll, Out, Due,
      Bytes, AllFound, AllCopied;
    GivenEvents(src, infiles, ts, preserve, pcpClient, host);
    var list := ExpandDirs(src, infiles, ts);
    var client := new Client(src, preserve, pcpClient, host);
    client.Run(list.items);
    sent := client.trace;
    var server := new Server(Out(sent), preserve, targetIsDir, outfile, blksize, fs);
    Wire(ts, preserve);
    assert server.input[0..] == Out(sent);
    server.Sink(outfile, ts, false, "");
    taken, fs' := server.trace, server.fs;
    PlacedStands(fs, outfile, IsDir(fs, outfile), ts, preserve);
    if '/' !in host {
      StandIsCopied(src, infiles, ts, preserve, pcpClient, host, fs, fs', outfile);
    }
    forall q | q !in Paths(outfile, IsDir(fs, outfile), ts)
      ensures (q in fs' <==> q in fs) && (q in fs ==> fs'[q] == fs[q])
    {
      PlaceOutside(fs, outfile, IsDir(fs, outfile), ts, preserve, q);
    }
  }

  lemma Wire(ts: seq<Tree>, preserve: bool)
    ensures [] + [Ack] + Events(ts, preserve) == [Ack] + Events(ts, preserve)
    ensures Out([Ack] + Events(ts, preserve)) == Out(Due(ts, preserve, false)) + Tail(false, "")
    ensures [] + ([Ack] + Events(ts, preserve) + Closing(false)) == [Ack] + Events(ts, preserve)
  {
    hide Events, Due;
    DueStart(ts, preserve);
    OutConcat([Ack], Events(ts, preserve));
    assert [Ack][1..] == [];
    assert Out([Ack]) == "";
  }

  lemma {:induction false} StandsAt(a: Files, b: Files, targ: string, isdir: bool, ts: seq<Tree>, preserve: bool,
      j: nat)
    requires Stand(a, b, targ, isdir, ts, preserve) && j < |ts|
    ensures TreeStands(a, b, Np(targ, isdir, ts[j].name), ts[j], preserve)
  {
    if j > 0 {
      StandsAt(a, b, targ, isdir, ts[1..], preserve, j - 1);
    }
  }

  predicate TreeStands(a: Files, b: Files, np: string, t: Tree, preserve: bool) {
    var mode := if np in b && !preserve then b[np].mode else t.mode;
    && np in a && a[np] == (if t.Reg? then RegNode(mode, t.data) else DirNode(mode))
    && (t.Dir? ==> Stand(a, b, np, true, t.kids, preserve))
  }

  lemma {:induction false} KidIsAt(src: Source, dir: string, ts: seq<Tree>, name: string) returns (j: nat)
    requires AreIn(src, dir, ts) && name in Names(ts)
    ensures j < |ts| && ts[j].name == name && IsAt(src, dir + "/" + name, ts[j])
  {
    if ts[0].name == name {
      j := 0;
    } else {
      j := KidIsAt(src, dir, ts[1..], name);
      j := j + 1;
    }
  }

  lemma {:induction false} SeenEntry(entries: seq<string>, name: string)
    requires name in entries && name != "." && name != ".."
    ensures name in Visible(entries)
  {
    if entries[0] != name {
      SeenEntry(entries[1..], name);
    }
  }

  /** What is found below a tree's path stands below the place of the tree. */
  lemma {:induction false} BelowStands(src: Source, path: string, t: Tree, rest: seq<string>,
      a: Files, b: Files, np: string, preserve: bool)
    requires IsAt(src, path, t) && Found(src, path, rest) && np != "" && TreeStands(a, b, np, t, preserve)
    ensures CopiedTo(src, path, rest, b, a, np, preserve)
    decreases rest
  {
    hide Stand;
    if rest == [] {
      AloneIs(src, path, t);
    } else {
      AtPath(src, path, t);
      SeenEntry(src[path].entries, rest[0]);
      var j := KidIsAt(src, path, t.kids, rest[0]);
      StandsAt(a, b, np, true, t.kids, preserve, j);
      BelowStands(src, path + "/" + rest[0], t.kids[j], rest[1..], a, b, np + "/" + rest[0], preserve);
    }
  }

  lemma AloneIs(src: Source, path: string, t: Tree)
    requires IsAt(src, path, t)
    ensures path in src && (src[path].File? <==> t.Reg?) && src[path].mode == t.mode
    ensures t.Reg? ==> src[path].data == t.data
  {
    if t.Dir? {
      assert t.(kids := []).mode == t.mode;
    }
  }

  lemma StandIsCopied(src: Source, infiles: seq<string>, ts: seq<Tree>, preserve: bool, pcpClient: bool, host: string,
      was: Files, now: Files, outfile: string)
    requires Given(src, infiles, ts) && WellNamed(infiles, ts, pcpClient, host) && '/' !in host
    requires Target(outfile, IsDir(was, outfile), ts) && WellFormed(ts, preserve)
    requires Stand(now, was, outfile, IsDir(was, outfile), ts, preserve)
    ensures AllCopied(src, infiles, preserve, pcpClient, host, was, now, outfile)
  {
    hide Stand, IsAt, CopiedTo, LastPart, OutputName, WellFormed, TreeStands;
    forall i, n, rest | 0 <= i < |infiles| && LastPart(infiles[i], n) && Found(src, infiles[i], rest)
      ensures CopiedTo(src, infiles[i], rest, was, now,
                       PlaceOf(outfile, IsDir(was, outfile), n, pcpClient, host), preserve)
    {
      var isdir := IsDir(was, outfile);
      OutputNames(infiles[i], n, true, pcpClient, host);
      GoodNames(ts, preserve, i);
      StandsAt(now, was, outfile, isdir, ts, preserve, i);
      PlaceIsNp(outfile, isdir, n, pcpClient, host, ts[i].name);
      BelowStands(src, infiles[i], ts[i], rest, now, was, Np(outfile, isdir, ts[i].name), preserve);
    }
  }

  lemma PlaceIsNp(outfile: string, isdir: bool, n: string, pcpClient: bool, host: string, name: string)
    requires name == (if pcpClient then n + "." + host else n) && name != "" && (isdir || outfile != "")
    ensures PlaceOf(outfile, isdir, n, pcpClient, host) == Np(outfile, isdir, name) != ""
  {
  }
}
