/** create_directories of src/tools.h: a walk along a copy of the path that ends the string at every
    separator in turn, calls mkdir, and puts the separator back. */
module Paths {
  import opened Basics

  const NUL := '\0'

  // ---- Paths and directories ---------------------------------------------------------------------

  /** A directory: the names on the way to it from the root. */
  type Dir = seq<string>

  /** The components of `s` that a separator ends, and the rest, which none ends. */
  function Split(s: string): (Dir, string)
    decreases |s|
  {
    if s == "" then ([], "")
    else
      var (closed, open) := Split(s[..|s| - 1]);
      if s[|s| - 1] != '/' then (closed, open + [s[|s| - 1]])
      else (if open == "" then closed else closed + [open], "")
  }

  function Closed(s: string): Dir { Split(s).0 }

  function Components(s: string): Dir { Closed(s + "/") }

  /** The directory a name denotes for a process in `cwd`. */
  function Resolve(cwd: Dir, name: string): Dir {
    Base(cwd, name) + Components(name)
  }

  function Base(cwd: Dir, name: string): Dir { if name != "" && name[0] == '/' then [] else cwd }

  datatype Reply = Created | Exists | Failed

  /** What a call does not change: the working directory, the entries that are not directories, those of
      them that are symbolic links to nothing, and what mkdir refuses to create. */
  datatype World = World(cwd: Dir, files: set<Dir>, dangling: set<Dir>, denied: iset<Dir>)

  /** mkdir(2): an entry of any kind may exist, the parent may not be a directory, or the system may refuse. */
  function Mkdir(world: World, dirs: set<Dir>, dir: Dir): Reply {
    if dir in dirs || dir in world.files then Exists
    else if dir == [] || dir[..|dir| - 1] !in dirs || dir in world.denied then Failed
    else Created
  }

  /** The directories after such a call. */
  function Made(world: World, dirs: set<Dir>, dir: Dir): set<Dir> {
    if Mkdir(world, dirs, dir) == Created then dirs + {dir} else dirs
  }

  /** mkdir for each of the targets, in order, until one fails. */
  function MkdirAll(world: World, dirs: set<Dir>, targets: seq<Dir>): (bool, set<Dir>)
    decreases |targets|
  {
    if targets == [] then (true, dirs)
    else if Mkdir(world, dirs, targets[0]) == Failed then (false, dirs)
    else MkdirAll(world, Made(world, dirs, targets[0]), targets[1..])
  }

  class FileSystem {
    const world: World
    var dirs: set<Dir>
    ghost var calls: seq<string>

    constructor (world: World, dirs: set<Dir>)
      ensures this.world == world && this.dirs == dirs && calls == []
    {
      this.world, this.dirs, calls := world, dirs, [];
    }

    method MakeDirectory(name: string) returns (reply: Reply)
      modifies this
      ensures reply == Mkdir(world, old(dirs), Resolve(world.cwd, name))
      ensures dirs == Made(world, old(dirs), Resolve(world.cwd, name)) && (reply == Failed ==> dirs == old(dirs))
      ensures calls == old(calls) + [name]
    {
      var dir := Resolve(world.cwd, name);
      if dir in dirs || dir in world.files {
        reply := Exists;
      } else if dir == [] || dir[..|dir| - 1] !in dirs || dir in world.denied {
        reply := Failed;
      } else {
        reply := Created;
        dirs := dirs + {dir};
      }
      calls := calls + [name];
    }
  }

  function Resolved(cwd: Dir, names: seq<string>): seq<Dir> {
    if names == [] then [] else [Resolve(cwd, names[0])] + Resolved(cwd, names[1..])
  }

  // ---- The walk ------------------------------------------------------------------------------------

  /** The string a C function finds at the start of the buffer. */
  function CString(buffer: seq<char>): string {
    if buffer == [] || buffer[0] == NUL then "" else [buffer[0]] + CString(buffer[1..])
  }

  /** The names the walk passes to mkdir from position `p` on, the separator before it being at `last`. */
  function Names(text: string, p: nat, last: nat): seq<string>
    requires p <= |text|
    decreases |text| - p
  {
    if p == |text| then []
    else if text[p] != '/' then Names(text, p + 1, last)
    else (if p - last - 1 > 0 then [text[..p]] else []) + Names(text, p + 1, p)
  }

  /** What snprintf leaves in the buffer for "%s/". */
  function Text(path: string): string {
    var s := CString(path) + "/";
    if |s| <= PATH_MAX - 1 then s else s[..PATH_MAX - 1]
  }

  lemma {:induction false} CStringIs(buffer: seq<char>, n: nat)
    requires n < |buffer| && buffer[n] == NUL && NUL !in buffer[..n]
    ensures CString(buffer) == buffer[..n]
    decreases n
  {
    if n == 0 {
    } else {
      assert buffer[0] == buffer[..n][0] != NUL;
      assert buffer[1..][..n - 1] == buffer[..n][1..];
      CStringIs(buffer[1..], n - 1);
    }
  }

  lemma {:induction false} CStringHasNoNul(s: string)
    ensures NUL !in CString(s) && CString(s) <= s
    decreases |s|
  {
    if s == [] || s[0] == NUL {
    } else {
      CStringHasNoNul(s[1..]);
    }
  }

  /** The loop of create_directories. */
  method Walk(tmp: array<char>, ghost text: string, fs: FileSystem) returns (ok: bool)
    requires |text| < tmp.Length && tmp[..|text|] == text && tmp[|text|] == NUL && NUL !in text
    modifies tmp, fs
    ensures (ok, fs.dirs) == MkdirAll(fs.world, old(fs.dirs), Resolved(fs.world.cwd, Names(text, 0, 0)))
    ensures old(fs.calls) <= fs.calls <= old(fs.calls) + Names(text, 0, 0)
    ensures ok ==> fs.calls == old(fs.calls) + Names(text, 0, 0) && tmp[..] == old(tmp[..])
  {
    hide MkdirAll, Resolve, Mkdir, Made, CString;
    var p: nat, last: nat := 0, 0;
    ghost var start, done := tmp[..], [];
    while tmp[p] != NUL
      invariant p <= |text| && tmp[..] == start
      invariant fs.calls == old(fs.calls) + done && Names(text, 0, 0) == done + Names(text, p, last)
      invariant MkdirAll(fs.world, fs.dirs, Resolved(fs.world.cwd, Names(text, p, last)))
             == MkdirAll(fs.world, old(fs.dirs), Resolved(fs.world.cwd, Names(text, 0, 0)))
      decreases |text| - p
    {
      if tmp[p] == '/' {
        if p - last - 1 > 0 {
          tmp[p] := NUL;
          CutAt(tmp[..], text, p);
          NextName(text, p, last, fs.world.cwd);
          NextTarget(fs.world, fs.dirs, Resolved(fs.world.cwd, Names(text, p, last)));
          done := done + [text[..p]];
          var reply := fs.MakeDirectory(CString(tmp[..]));
          if reply == Failed {
            return false;
          }
          tmp[p] := '/';
        } else {
          NoName(text, p, last);
        }
        last := p;
      }
      p := p + 1;
    }
    NoMoreTargets(fs.world, fs.dirs);
    ok := true;
  }

  /** create_directories. */
  method CreateDirectories(path: string, fs: FileSystem) returns (ok: bool)
    modifies fs
    ensures (ok, fs.dirs) == Create(fs.world, old(fs.dirs), path)
    ensures ok ==> fs.calls == old(fs.calls) + Names(Text(path), 0, 0)
  {
    var text := Text(path);
    TextHasNoNul(path);
    var tmp := new char[PATH_MAX](i => if 0 <= i < |text| then text[i] else NUL);
    assert tmp[..|text|] == text;
    ok := Walk(tmp, text, fs);
  }

  function Create(world: World, dirs: set<Dir>, path: string): (bool, set<Dir>) {
    MkdirAll(world, dirs, Resolved(world.cwd, Names(Text(path), 0, 0)))
  }

  lemma TextHasNoNul(path: string)
    ensures |Text(path)| < PATH_MAX && NUL !in Text(path)
  {
    CStringHasNoNul(path);
  }

  lemma CutAt(buffer: seq<char>, text: string, p: nat)
    requires p < |text| < |buffer| && buffer[..p] == text[..p] && buffer[p] == NUL && NUL !in text
    ensures CString(buffer) == text[..p]
  {
    CStringIs(buffer, p);
  }

  lemma NextName(text: string, p: nat, last: nat, cwd: Dir)
    requires p < |text| && text[p] == '/' && p - last - 1 > 0
    ensures Names(text, p, last) == [text[..p]] + Names(text, p + 1, p)
    ensures Resolved(cwd, Names(text, p, last)) == [Resolve(cwd, text[..p])] + Resolved(cwd, Names(text, p + 1, p))
  {
    assert ([text[..p]] + Names(text, p + 1, p))[1..] == Names(text, p + 1, p);
  }

  lemma NoName(text: string, p: nat, last: nat)
    requires p < |text| && text[p] == '/' && p - last - 1 <= 0
    ensures Names(text, p, last) == Names(text, p + 1, p)
  {}

  lemma NextTarget(world: World, dirs: set<Dir>, targets: seq<Dir>)
    requires targets != []
    ensures MkdirAll(world, dirs, targets) ==
            if Mkdir(world, dirs, targets[0]) == Failed then (false, dirs)
            else MkdirAll(world, Made(world, dirs, targets[0]), targets[1..])
  {}

  lemma NoMoreTargets(world: World, dirs: set<Dir>)
    ensures MkdirAll(world, dirs, []) == (true, dirs)
  {}

  // ---- Which names the walk passes to mkdir --------------------------------------------------------

  /** A relative path whose first component is a single character. */
  predicate ShortStart(text: string) { |text| >= 2 && text[0] != '/' && text[1] == '/' }

  lemma SplitStep(text: string, p: nat)
    requires p < |text|
    ensures var (closed, open) := Split(text[..p]);
            Split(text[..p + 1]) == if text[p] != '/' then (closed, open + [text[p]])
                                    else (if open == "" then closed else closed + [open], "")
  {
    assert text[..p + 1][..p] == text[..p];
  }

  lemma {:induction false} ClosedGrows(text: string, p: nat, q: nat)
    requires p <= q <= |text|
    ensures Closed(text[..p]) <= Closed(text[..q])
    decreases q
  {
    if p == q {
    } else {
      ClosedGrows(text, p, q - 1);
      SplitStep(text, q - 1);
    }
  }

  /** A name cut off before a separator has the components up to there. */
  lemma ComponentsOfCut(text: string, p: nat)
    requires p < |text| && text[p] == '/'
    ensures Components(text[..p]) == Closed(text[..p + 1])
  {
    assert text[..p] + "/" == text[..p + 1];
  }

  /** The separator pointer keeps track of the open component, off by one before the first separator. */
  ghost predicate Tracks(text: string, p: nat, last: nat) {
    && p <= |text| && last <= p
    && (last == 0 && (p == 0 || text[0] != '/') ==> p == |Split(text[..p]).1| && Closed(text[..p]) == [])
    && (last != 0 || (p > 0 && text[0] == '/') ==> last < p && p - last - 1 == |Split(text[..p]).1|)
  }

  lemma TracksStep(text: string, p: nat, last: nat)
    requires Tracks(text, p, last) && p < |text|
    ensures Tracks(text, p + 1, if text[p] == '/' then p else last)
  {
    SplitStep(text, p);
  }

  /** The names still to come have one component more each, after the first `done`. */
  ghost predicate Cuts(text: string, names: seq<string>, done: nat) {
    && |names| == |Closed(text)| - done
    && forall k :: 0 <= k < |names| ==>
         names[k] != "" && names[k] <= text && Components(names[k]) == Closed(text)[..done + k + 1]
  }

  lemma OneMoreCut(text: string, name: string, names: seq<string>, done: nat)
    requires Cuts(text, names, done + 1)
    requires name != "" && name <= text && Components(name) == Closed(text)[..done + 1]
    ensures Cuts(text, [name] + names, done)
  {
    hide Closed, Components;
  }

  /** Components that the walk has passed: the one-letter start of a relative path counts from the beginning. */
  function Done(text: string, p: nat): nat
    requires p <= |text|
  {
    |Closed(text[..p])| + if p <= 1 && ShortStart(text) then 1 else 0
  }

  lemma DoneStep(text: string, p: nat, last: nat)
    requires Tracks(text, p, last) && p < |text|
    ensures Done(text, p + 1) == Done(text, p) + if text[p] == '/' && p - last - 1 > 0 then 1 else 0
    ensures text[p] == '/' && p - last - 1 > 0 ==> Components(text[..p]) == Closed(text[..p + 1])
    ensures text[p] == '/' && p - last - 1 > 0 ==> |Closed(text[..p + 1])| == Done(text, p + 1)
  {
    SplitStep(text, p);
    if text[p] == '/' {
      ComponentsOfCut(text, p);
    }
  }

  /** The k-th name has the first k components of the path, one more for every call; only a one-letter
      start of a relative path is passed over. */
  lemma {:induction false} NamesFrom(text: string, p: nat, last: nat)
    requires p <= |text| && Tracks(text, p, last)
    ensures Cuts(text, Names(text, p, last), Done(text, p))
    decreases |text| - p
  {
    hide Components, Closed, Cuts, Done, ShortStart, Tracks, Split;
    if p == |text| {
      NothingToCut(text);
    } else {
      var next := if text[p] == '/' then p else last;
      TracksStep(text, p, last);
      DoneStep(text, p, last);
      NamesFrom(text, p + 1, next);
      if text[p] == '/' && p - last - 1 > 0 {
        PrefixOfClosed(text, p + 1);
        OneMoreCut(text, text[..p], Names(text, p + 1, p), Done(text, p));
      } else if text[p] == '/' {
        NoName(text, p, last);
      }
    }
  }

  lemma NothingToCut(text: string)
    ensures Cuts(text, [], Done(text, |text|))
  {
    assert text[..|text|] == text;
  }

  lemma PrefixOfClosed(text: string, q: nat)
    requires q <= |text|
    ensures |Closed(text[..q])| <= |Closed(text)| && Closed(text)[..|Closed(text[..q])|] == Closed(text[..q])
  {
    assert text[..|text|] == text;
    ClosedGrows(text, q, |text|);
  }

  // ---- Names and components --------------------------------------------------------------------------

  predicate PlainName(name: string) { name != "" && '/' !in name }

  lemma {:induction false} SplitAppend(s: string, name: string)
    requires '/' !in name
    ensures Split(s + name) == (Split(s).0, Split(s).1 + name)
    decreases |name|
  {
    if name == "" {
      assert s + name == s && Split(s).1 + name == Split(s).1;
    } else {
      var n := |name| - 1;
      SplitAppend(s, name[..n]);
      assert (s + name)[..|s| + n] == s + name[..n];
      assert (Split(s).1 + name[..n]) + [name[n]] == Split(s).1 + name;
    }
  }

  lemma SplitSeparator(s: string)
    ensures Split(s + "/") == (if Split(s).1 == "" then Split(s).0 else Split(s).0 + [Split(s).1], "")
  {
    assert (s + "/")[..|s|] == s;
  }

  /** The names one below the other, with a separator before each. */
  function Below(names: Dir): string {
    if names == [] then "" else Below(names[..|names| - 1]) + "/" + names[|names| - 1]
  }

  lemma OneBelow(s: string, name: string)
    requires Split(s).1 != "" && '/' !in name
    ensures Split(s + "/" + name) == (Split(s).0 + [Split(s).1], name)
  {
    SplitSeparator(s);
    SplitAppend(s + "/", name);
    hide Split;
    assert "" + name == name;
  }

  lemma BelowStep(s: string, names: Dir)
    requires names != []
    ensures var init, last := names[..|names| - 1], names[|names| - 1];
            s + Below(names) == s + Below(init) + "/" + last && names == init + [last]
  {}

  lemma {:induction false} SplitBelow(s: string, names: Dir)
    requires Split(s).1 != "" && forall n :: n in names ==> PlainName(n)
    ensures var (closed, open) := Split(s + Below(names));
            open != "" && closed + [open] == Split(s).0 + [Split(s).1] + names
    decreases |names|
  {
    hide Split;
    if names == [] {
      assert s + Below(names) == s;
    } else {
      var init, last := names[..|names| - 1], names[|names| - 1];
      assert PlainName(last);
      SplitBelow(s, init);
      BelowStep(s, names);
      OneBelow(s + Below(init), last);
      hide Below;
      Regroup(Split(s).0, Split(s).1, init, last);
    }
  }

  lemma Regroup(closed: Dir, open: string, init: Dir, last: string)
    ensures (closed + [open] + init) + [last] == closed + [open] + (init + [last])
  {}

  lemma ComponentsBelow(s: string, names: Dir)
    requires Split(s).1 != "" && forall n :: n in names ==> PlainName(n)
    ensures Components(s + Below(names)) == Split(s).0 + [Split(s).1] + names
  {
    hide Split, Below;
    SplitBelow(s, names);
    SplitSeparator(s + Below(names));
  }

  lemma FirstName(name: string)
    requires PlainName(name)
    ensures Split(name) == ([], name) && Split("/" + name) == ([], name)
  {
    SplitSeparator("");
    SplitAppend("/", name);
    SplitAppend("", name);
    assert "" + "/" == "/" && "" + name == name;
  }

  /** A name made of components denotes just these: from the root on if it begins with a separator, from the
      working directory on if it does not. */
  lemma ResolveInverts(cwd: Dir, names: Dir)
    requires names != [] && forall n :: n in names ==> PlainName(n)
    ensures Resolve(cwd, "/" + names[0] + Below(names[1..])) == names
    ensures Resolve(cwd, names[0] + Below(names[1..])) == cwd + names
  {
    var first, rest := names[0], names[1..];
    assert PlainName(first);
    hide Split, Below, Components;
    FirstName(first);
    ComponentsBelow("/" + first, rest);
    ComponentsBelow(first, rest);
    assert [] + [first] + rest == names && [] + names == names;
  }

  // ---- What a call does to the file system ---------------------------------------------------------

  /** Every entry lies in a directory, and is either a directory or not. */
  ghost predicate Tree(world: World, dirs: set<Dir>) {
    && [] in dirs && world.cwd in dirs
    && (forall d :: d in dirs && d != [] ==> d[..|d| - 1] in dirs)
    && (forall f :: f in world.files ==> f != [] && f !in dirs && f[..|f| - 1] in dirs)
  }

  /** Component lists cut off one by one. */
  function Chain(base: Dir, all: Dir, from: nat): seq<Dir>
    requires from <= |all|
    decreases |all| - from
  {
    if from == |all| then [] else [base + all[..from + 1]] + Chain(base, all, from + 1)
  }

  /** The directories of a chain, as a set. */
  function Links(base: Dir, all: Dir, from: nat): set<Dir> { set k | from < k <= |all| :: base + all[..k] }

  /** Something that mkdir is not stopped by, and that is a directory afterwards. */
  predicate Passable(world: World, dirs: set<Dir>, dir: Dir) {
    dir in dirs || (dir !in world.files && dir !in world.denied)
  }

  /** What has to hold of the links of a chain: each is passable, or it is the last one and exists. */
  ghost predicate ClearWay(world: World, dirs: set<Dir>, base: Dir, all: Dir, from: nat) {
    forall k :: from < k <= |all| ==>
      Passable(world, dirs, base + all[..k]) || (k == |all| && base + all[..k] in world.files)
  }

  lemma ClearStep(world: World, dirs: set<Dir>, base: Dir, all: Dir, from: nat)
    requires from < |all|
    ensures ClearWay(world, dirs, base, all, from) <==>
            ((Passable(world, dirs, base + all[..from + 1]) || (from + 1 == |all| && base + all in world.files))
             && ClearWay(world, dirs, base, all, from + 1))
    ensures Links(base, all, from) == {base + all[..from + 1]} + Links(base, all, from + 1)
  {
    hide Passable;
    assert all[..|all|] == all;
  }

  lemma ClearOn(world: World, dirs: set<Dir>, base: Dir, all: Dir, from: nat)
    requires from < |all|
    ensures ClearWay(world, dirs + {base + all[..from + 1]}, base, all, from + 1)
       <==> ClearWay(world, dirs, base, all, from + 1)
  {
    forall k | from + 1 < k <= |all| ensures base + all[..k] != base + all[..from + 1] {
      assert |base + all[..k]| == |base| + k;
    }
  }

  /** Nothing can be created below an entry that is not a directory, or that does not exist. */
  lemma BelowMissing(world: World, dirs: set<Dir>, dir: Dir)
    requires Tree(world, dirs) && dir != [] && dir[..|dir| - 1] !in dirs
    ensures Mkdir(world, dirs, dir) == Failed
  {}

  lemma MadeIsTree(world: World, dirs: set<Dir>, dir: Dir)
    requires Tree(world, dirs)
    ensures Tree(world, Made(world, dirs, dir))
  {}

  /** What a chain comes to: it succeeds exactly when the way is clear. All links but a last one that is
      something else are then directories, and nothing else is added. */
  ghost predicate Comes(world: World, dirs: set<Dir>, base: Dir, all: Dir, from: nat, r: (bool, set<Dir>)) {
    && (r.0 <==> ClearWay(world, dirs, base, all, from))
    && (r.0 ==> r.1 == dirs + (Links(base, all, from) - world.files))
    && dirs <= r.1 <= dirs + (Links(base, all, from) - world.files)
  }

  lemma ComesOn(world: World, dirs: set<Dir>, base: Dir, all: Dir, from: nat, r: (bool, set<Dir>))
    requires from < |all| && base + all[..from + 1] !in world.files && Passable(world, dirs, base + all[..from + 1])
    requires Comes(world, dirs + {base + all[..from + 1]}, base, all, from + 1, r)
    ensures Comes(world, dirs, base, all, from, r)
  {
    var dir := base + all[..from + 1];
    ClearStep(world, dirs, base, all, from);
    ClearOn(world, dirs, base, all, from);
    hide ClearWay, Links, Passable;
    assert {dir} + Links(base, all, from + 1) - world.files == {dir} + (Links(base, all, from + 1) - world.files);
  }

  lemma ComesToFile(world: World, dirs: set<Dir>, base: Dir, all: Dir, from: nat)
    requires from < |all| && Tree(world, dirs) && base + all[..from + 1] in world.files
    ensures Comes(world, dirs, base, all, from, (from + 1 == |all|, dirs))
  {
    assert base + all[..from + 1] !in dirs;
    ClearStep(world, dirs, base, all, from);
    if from + 1 == |all| {
      NothingInTheWay(world, dirs, base, all);
      assert all[..|all|] == all;
    }
  }

  lemma ComesToRefusal(world: World, dirs: set<Dir>, base: Dir, all: Dir, from: nat)
    requires from < |all| && Tree(world, dirs) && base + all[..from] in dirs
    requires Mkdir(world, dirs, base + all[..from + 1]) == Failed
    ensures Comes(world, dirs, base, all, from, (false, dirs))
  {
    var dir := base + all[..from + 1];
    assert dir[..|dir| - 1] == base + all[..from];
    ClearStep(world, dirs, base, all, from);
    assert from + 1 == |all| ==> dir == base + all by {
      assert all[..|all|] == all;
    }
  }

  /** With the parent of the first in place, this is what a chain comes to. */
  lemma {:induction false} ChainSucceeds(world: World, dirs: set<Dir>, base: Dir, all: Dir, from: nat)
    requires from <= |all| && Tree(world, dirs) && base + all[..from] in dirs
    ensures Comes(world, dirs, base, all, from, MkdirAll(world, dirs, Chain(base, all, from)))
    decreases |all| - from
  {
    hide MkdirAll, Chain, ClearWay, Links, Tree, Comes;
    if from == |all| {
      ChainEnds(base, all);
      NoMoreTargets(world, dirs);
      NothingComes(world, dirs, base, all);
    } else {
      var dir := base + all[..from + 1];
      FirstLink(base, all, from);
      NextTarget(world, dirs, Chain(base, all, from));
      if dir in world.files {
        FileIsNoDir(world, dirs, dir);
        BlockedChain(world, dirs, base, all, from + 1);
        ComesToFile(world, dirs, base, all, from);
      } else if Mkdir(world, dirs, dir) == Failed {
        ComesToRefusal(world, dirs, base, all, from);
      } else {
        assert Made(world, dirs, dir) == dirs + {dir};
        MadeIsTree(world, dirs, dir);
        ChainSucceeds(world, dirs + {dir}, base, all, from + 1);
        ComesOn(world, dirs, base, all, from, MkdirAll(world, dirs + {dir}, Chain(base, all, from + 1)));
      }
    }
  }

  lemma FileIsNoDir(world: World, dirs: set<Dir>, dir: Dir)
    requires Tree(world, dirs) && dir in world.files
    ensures dir !in dirs
  {}

  lemma NothingComes(world: World, dirs: set<Dir>, base: Dir, all: Dir)
    ensures Comes(world, dirs, base, all, |all|, (true, dirs))
  {}

  /** A chain below something that is not a directory: nothing to do, or nothing to be done. */
  lemma BlockedChain(world: World, dirs: set<Dir>, base: Dir, all: Dir, from: nat)
    requires from <= |all| && Tree(world, dirs) && base + all[..from] in world.files
    ensures MkdirAll(world, dirs, Chain(base, all, from)) == (from == |all|, dirs)
    ensures from == |all| ==> Links(base, all, from) == {} && base + all == base + all[..from]
  {
    if from == |all| {
      ChainEnds(base, all);
      NoMoreTargets(world, dirs);
    } else {
      var dir := base + all[..from + 1];
      assert dir[..|dir| - 1] == base + all[..from];
      FirstLink(base, all, from);
      BelowMissing(world, dirs, dir);
      NextTarget(world, dirs, Chain(base, all, from));
    }
  }

  lemma {:induction false} ResolvedChain(cwd: Dir, base: Dir, all: Dir, from: nat, names: seq<string>)
    requires from <= |all| && |names| == |all| - from
    requires forall k :: 0 <= k < |names| ==> Resolve(cwd, names[k]) == base + all[..from + k + 1]
    ensures Resolved(cwd, names) == Chain(base, all, from)
    decreases |names|
  {
    if names == [] {
    } else {
      hide Resolve;
      forall k | 0 <= k < |names| - 1 ensures Resolve(cwd, names[1..][k]) == base + all[..(from + 1) + k + 1] {
        assert names[1..][k] == names[k + 1];
      }
      ResolvedChain(cwd, base, all, from + 1, names[1..]);
    }
  }

  function Skipped(text: string): nat { if ShortStart(text) then 1 else 0 }

  lemma TargetsAre(cwd: Dir, text: string)
    ensures Skipped(text) <= |Closed(text)|
    ensures Resolved(cwd, Names(text, 0, 0)) == Chain(Base(cwd, text), Closed(text), Skipped(text))
  {
    hide Names, Components, Resolved, Chain;
    assert text[..0] == "";
    NamesFrom(text, 0, 0);
    ResolvedChain(cwd, Base(cwd, text), Closed(text), Skipped(text), Names(text, 0, 0));
  }

  /** The names are the components of the path, one more each time, so that a parent always comes
      before its child and repeated separators count once. */
  lemma NamesAreThePrefixes(text: string)
    ensures var names := Names(text, 0, 0);
      && |names| == |Closed(text)| - Skipped(text)
      && forall k :: 0 <= k < |names| ==>
           names[k] <= text && Components(names[k]) == Closed(text)[..Skipped(text) + k + 1]
  {
    assert text[..0] == "";
    NamesFrom(text, 0, 0);
  }

  /** When create_directories succeeds, and what it adds: in a tree it succeeds exactly when each
      component is passable or is the last one and exists, and the component that is passed over, if any,
      is no one's parent or exists already. */
  lemma CreateSucceedsExactlyWhen(world: World, dirs: set<Dir>, path: string)
    requires Tree(world, dirs)
    ensures var (ok, after) := Create(world, dirs, path);
            var base, all, from := Base(world.cwd, Text(path)), Closed(Text(path)), Skipped(Text(path));
      && from <= |all|
      && (ok <==> ((from == 1 ==> |all| == 1 || base + all[..1] in dirs) && ClearWay(world, dirs, base, all, from)))
      && (ok ==> after == dirs + (Links(base, all, from) - world.files))
      && dirs <= after <= dirs + (Links(base, all, from) - world.files)
  {
    var base, all, from := Base(world.cwd, Text(path)), Closed(Text(path)), Skipped(Text(path));
    hide Closed, Text, Names, Chain, MkdirAll, ClearWay;
    TargetsAre(world.cwd, Text(path));
    assert base + all[..0] == base;
    if from == |all| {
      ChainEnds(base, all);
      NoMoreTargets(world, dirs);
      NothingInTheWay(world, dirs, base, all);
    } else if base + all[..from] in dirs {
      ChainSucceeds(world, dirs, base, all, from);
    } else {
      var dir := base + all[..from + 1];
      assert dir[..|dir| - 1] == base + all[..from];
      FirstLink(base, all, from);
      BelowMissing(world, dirs, dir);
      NextTarget(world, dirs, Chain(base, all, from));
    }
  }

  lemma NothingInTheWay(world: World, dirs: set<Dir>, base: Dir, all: Dir)
    ensures ClearWay(world, dirs, base, all, |all|) && Links(base, all, |all|) == {}
  {}

  lemma ChainEnds(base: Dir, all: Dir)
    ensures Chain(base, all, |all|) == []
  {}

  lemma FirstLink(base: Dir, all: Dir, from: nat)
    requires from < |all|
    ensures Chain(base, all, from) != [] && Chain(base, all, from)[0] == base + all[..from + 1]
    ensures Chain(base, all, from)[1..] == Chain(base, all, from + 1)
  {}

  // ---- When success means that the directory is there ----------------------------------------------

  lemma {:induction false} OpenCloses(s: string, p: nat)
    requires p < |s| && s[|s| - 1] == '/' && Split(s[..p]).1 != ""
    ensures |Closed(s)| > |Closed(s[..p])|
    decreases |s| - p
  {
    SplitStep(s, p);
    assert s[..|s|] == s;
    if s[p] == '/' {
      ClosedGrows(s, p + 1, |s|);
    } else {
      OpenCloses(s, p + 1);
    }
  }

  lemma {:induction false} SeparatorsAddNothing(s: string, p: nat)
    requires p <= |s| && Split(s[..p]).1 == "" && forall i :: p <= i < |s| ==> s[i] == '/'
    ensures Closed(s) == Closed(s[..p])
    decreases |s| - p
  {
    if p < |s| {
      SplitStep(s, p);
      SeparatorsAddNothing(s, p + 1);
    } else {
      assert s[..p] == s;
    }
  }

  lemma OpenAfter(s: string, i: nat)
    requires i < |s|
    ensures s[i] != '/' <==> Split(s[..i + 1]).1 != ""
  {
    SplitStep(s, i);
  }

  /** What comes after position `p` adds a component exactly when it is not separators only. */
  lemma GrowsExactlyWhen(s: string, p: nat)
    requires 1 <= p <= |s| && s[|s| - 1] == '/'
    ensures Closed(s[..p]) <= Closed(s)
    ensures Closed(s[..p]) == Closed(s) <==> forall i :: p - 1 <= i < |s| - 1 ==> p == |s| || s[i] == '/'
  {
    assert s[..|s|] == s;
    ClosedGrows(s, p, |s|);
    if p < |s| {
      if i :| p - 1 <= i < |s| - 1 && s[i] != '/' {
        OpenAfter(s, i);
        OpenCloses(s, i + 1);
        ClosedGrows(s, p, i + 1);
      } else {
        OpenAfter(s, p - 1);
        SeparatorsAddNothing(s, p);
      }
    }
  }

  /** The path fits the buffer, or only separators fall off its end, and it is not a one-letter
      relative name. */
  predicate Reaches(path: string) {
    var c := CString(path);
    && (forall i :: 4094 <= i < |c| ==> c[i] == '/')
    && !(c != "" && c[0] != '/' && forall i :: 1 <= i < |c| ==> c[i] == '/')
  }

  /** The entry that the path names. */
  function Target(world: World, path: string): Dir { Resolve(world.cwd, CString(path)) }

  /** If the call succeeds, the directory that the path names is there afterwards. */
  ghost predicate ThereAfter(world: World, dirs: set<Dir>, path: string) {
    var (ok, after) := Create(world, dirs, path);
    ok ==> Target(world, path) in after
  }

  /** What the buffer holds of the path: all its components, exactly when only separators are cut off. */
  lemma TextHolds(path: string)
    ensures var c, all := CString(path), Closed(Text(path));
      && all <= Components(c)
      && (all == Components(c) <==> forall i :: PATH_MAX - 2 <= i < |c| ==> c[i] == '/')
      && ShortStart(Text(path)) == ShortStart(c + "/")
      && Text(path) != "" && (c != "" ==> Text(path)[0] == c[0])
  {
    var c := CString(path);
    var s := c + "/";
    if |s| > PATH_MAX - 1 {
      GrowsExactlyWhen(s, PATH_MAX - 1);
      assert forall i :: 0 <= i < |c| ==> s[i] == c[i];
    }
  }

  lemma OneComponentExactlyWhen(c: string)
    requires ShortStart(c + "/")
    ensures c != "" && c[0] != '/' && |Components(c)| >= 1
    ensures |Components(c)| == 1 <==> forall i :: 1 <= i < |c| ==> c[i] == '/'
  {
    var s := c + "/";
    assert s[..0] == "" && s[..2][..1] == s[..1] && s[..1][..0] == s[..0];
    SplitStep(s, 0);
    assert "" + [s[0]] == [s[0]];
    assert Split(s[..1]) == ([], [s[0]]);
    SplitStep(s, 1);
    assert Closed(s[..2]) == [[s[0]]];
    GrowsExactlyWhen(s, 2);
    assert forall i :: 0 <= i < |c| ==> s[i] == c[i];
  }

  function Prefixes(d: Dir): set<Dir> { set k | 0 <= k <= |d| :: d[..k] }

  lemma PrefixesAreATree(d: Dir, files: set<Dir>)
    requires forall f :: f in files ==> f != [] && f !in Prefixes(d) && f[..|f| - 1] in Prefixes(d)
    ensures Tree(World([], files, {}, iset{}), Prefixes(d))
  {
    assert d[..0] == [];
    forall e | e in Prefixes(d) && e != [] ensures e[..|e| - 1] in Prefixes(d) {
      assert e == d[..|e|] && e[..|e| - 1] == d[..|e| - 1];
    }
  }

  /** For a path that fits, a call that succeeds has made a directory exactly when the path does not name
      an entry that is something else. */
  lemma ThereExactlyWhen(world: World, dirs: set<Dir>, path: string)
    requires Tree(world, dirs) && Reaches(path) && Create(world, dirs, path).0
    ensures Target(world, path) in Create(world, dirs, path).1 <==> Target(world, path) !in world.files
  {
    hide Create, Components, Closed, ShortStart, CString, Text, ClearWay;
    var c, all := CString(path), Closed(Text(path));
    var base := Base(world.cwd, Text(path));
    TextHolds(path);
    CreateSucceedsExactlyWhen(world, dirs, path);
    if c == "" {
      EmptyPath(path);
      assert Resolve(world.cwd, c) == world.cwd;
    } else {
      if ShortStart(Text(path)) {
        OneComponentExactlyWhen(c);
      }
      assert Resolve(world.cwd, c) == base + all;
      if all == [] {
        assert base + all == base;
      } else {
        LastLink(base, all, Skipped(Text(path)));
      }
    }
  }

  lemma LastLink(base: Dir, all: Dir, from: nat)
    requires from < |all|
    ensures base + all in Links(base, all, from)
  {
    assert base + all == base + all[..|all|];
  }

  lemma EmptyPath(path: string)
    requires CString(path) == ""
    ensures Components(CString(path)) == []
  {
    assert "" + "/" == "/" && "/"[..0] == "";
  }

  lemma PrefixIn(d: Dir, k: nat)
    requires k <= |d|
    ensures [] + d[..k] in Prefixes(d)
  {
    assert [] + d[..k] == d[..k];
  }

  lemma LongerIsNoPrefix(d: Dir, e: Dir)
    requires d <= e && d != e
    ensures e !in Prefixes(d)
  {}

  const EMPTY_WORLD := World([], {}, {}, iset{})

  lemma AllInPlace(world: World, all: Dir, from: nat)
    ensures ClearWay(world, Prefixes(all), [], all, from)
  {
    forall k: nat | k <= |all| ensures [] + all[..k] in Prefixes(all) { PrefixIn(all, k); }
  }

  lemma CutShort(path: string)
    requires Closed(Text(path)) != Components(CString(path))
    ensures Tree(EMPTY_WORLD, Prefixes(Closed(Text(path))))
    ensures !ThereAfter(EMPTY_WORLD, Prefixes(Closed(Text(path))), path)
  {
    hide Create, Components, Closed, ShortStart, CString, Text, Prefixes, Tree, ClearWay, Links;
    var c, all := CString(path), Closed(Text(path));
    TextHolds(path);
    PrefixesAreATree(all, {});
    CreateSucceedsExactlyWhen(EMPTY_WORLD, Prefixes(all), path);
    AllInPlace(EMPTY_WORLD, all, Skipped(Text(path)));
    forall k: nat | k <= |all| ensures [] + all[..k] in Prefixes(all) { PrefixIn(all, k); }
    LinksInPlace(all, Skipped(Text(path)));
    LongerIsNoPrefix(all, Components(c));
    assert Resolve([], c) == Components(c);
  }

  lemma LinksInPlace(all: Dir, from: nat)
    ensures Links([], all, from) <= Prefixes(all)
  {
    forall k: nat | k <= |all| ensures [] + all[..k] in Prefixes(all) { PrefixIn(all, k); }
  }

  lemma OneLetter(path: string)
    requires var c := CString(path); c != "" && c[0] != '/' && forall i :: 1 <= i < |c| ==> c[i] == '/'
    requires Closed(Text(path)) == Components(CString(path))
    ensures Tree(EMPTY_WORLD, {[]}) && !ThereAfter(EMPTY_WORLD, {[]}, path)
  {
    hide Create, Components, Closed, CString, Text, ClearWay;
    var c := CString(path);
    assert c + "/" != "" && (c + "/")[1] == '/';
    TextHolds(path);
    OneComponentExactlyWhen(c);
    CreateSucceedsExactlyWhen(EMPTY_WORLD, {[]}, path);
    NothingInTheWay(EMPTY_WORLD, {[]}, [], Closed(Text(path)));
    assert Resolve([], c) == Components(c);
  }

  /** A path that is cut short, or names one letter in the working directory, can be reported as
      created although it does not exist, even where every entry is a directory. */
  lemma NotReached(path: string) returns (dirs: set<Dir>)
    requires !Reaches(path)
    ensures Tree(EMPTY_WORLD, dirs) && !ThereAfter(EMPTY_WORLD, dirs, path)
  {
    hide Components, Closed, CString, Text, Create, Prefixes, Tree, ThereAfter;
    TextHolds(path);
    if Closed(Text(path)) == Components(CString(path)) {
      dirs := {[]};
      OneLetter(path);
    } else {
      dirs := Prefixes(Closed(Text(path)));
      CutShort(path);
    }
  }

  /** In all trees and whatever mkdir refuses, success means that the directory exists, unless the path
      names an entry that is not a directory, exactly for the paths that `Reaches` describes. */
  lemma SuccessMeansThereExactlyWhen(path: string)
    ensures (forall world: World, dirs: set<Dir> ::
               Tree(world, dirs) && Target(world, path) !in world.files ==> ThereAfter(world, dirs, path))
       <==> Reaches(path)
  {
    hide Reaches, Tree, Create, Target;
    if Reaches(path) {
      forall world: World, dirs: set<Dir> | Tree(world, dirs) && Target(world, path) !in world.files
        ensures ThereAfter(world, dirs, path)
      {
        if Create(world, dirs, path).0 {
          ThereExactlyWhen(world, dirs, path);
        }
      }
    } else {
      var dirs := NotReached(path);
    }
  }

  /** An entry of another kind in the place of the directory makes the call succeed without it: EEXIST is
      not told apart. */
  lemma FileInTheWay(path: string) returns (world: World, dirs: set<Dir>)
    requires Reaches(path) && Components(CString(path)) != []
    ensures Tree(world, dirs) && Target(world, path) in world.files && world.dangling == {}
    ensures Create(world, dirs, path).0 && Target(world, path) !in Create(world, dirs, path).1
  {
    var c, all := CString(path), Components(CString(path));
    var parent := all[..|all| - 1];
    world, dirs := World([], {all}, {}, iset{}), Prefixes(parent);
    FileBesidePrefixes(all);
    hide Create, Components, Closed, ShortStart, CString, Text, Tree, ClearWay, Prefixes;
    TextHolds(path);
    assert Resolve([], c) == all;
    CreateSucceedsExactlyWhen(world, dirs, path);
    ClearButLast(all, Skipped(Text(path)));
    if ShortStart(Text(path)) {
      OneComponentExactlyWhen(c);
      PrefixIn(parent, 1);
      assert parent[..1] == all[..1];
    }
    ThereExactlyWhen(world, dirs, path);
  }

  lemma FileBesidePrefixes(all: Dir)
    requires all != []
    ensures Tree(World([], {all}, {}, iset{}), Prefixes(all[..|all| - 1]))
  {
    var parent := all[..|all| - 1];
    assert parent == parent[..|parent|];
    PrefixesAreATree(parent, {all});
  }

  lemma ClearButLast(all: Dir, from: nat)
    requires all != []
    ensures ClearWay(World([], {all}, {}, iset{}), Prefixes(all[..|all| - 1]), [], all, from)
  {
    var parent := all[..|all| - 1];
    forall k: nat | k < |all| ensures [] + all[..k] in Prefixes(parent) {
      PrefixIn(parent, k);
      assert parent[..k] == all[..k];
    }
    assert [] + all[..|all|] == all;
  }

  // ---- create_output_directory of src/output.cc ----------------------------------------------------

  /** What stat(2) has to report: it follows links, and takes neither an empty nor an overlong path, nor a
      separator after something that is not a directory. */
  datatype Kind = Missing | Directory | Other

  predicate StatSees(c: string) { c != "" && |c| < 4096 && c[|c| - 1] != '/' }

  function Stat(world: World, dirs: set<Dir>, path: string): Kind {
    var c, target := CString(path), Target(world, path);
    if c != "" && |c| < PATH_MAX && target in dirs then Directory
    else if StatSees(c) && target in world.files && target !in world.dangling then Other
    else Missing
  }

  function CreateOutput(world: World, dirs: set<Dir>, path: string): (bool, set<Dir>) {
    match Stat(world, dirs, path)
    case Directory => (true, dirs)
    case Other => (false, dirs)
    case Missing => Create(world, dirs, path)
  }

  /** False is the exception that the original throws. An existing directory is left alone, a visible entry
      of another kind is reported, and otherwise the directory is created. */
  method CreateOutputDirectory(path: string, fs: FileSystem) returns (ok: bool)
    modifies fs
    ensures (ok, fs.dirs) == CreateOutput(fs.world, old(fs.dirs), path)
    ensures var c, target := CString(path), Resolve(fs.world.cwd, CString(path));
            var visible := c != "" && |c| < PATH_MAX;
            var there := visible && target in old(fs.dirs);
            var other := visible && c[|c| - 1] != '/' && target in fs.world.files && target !in fs.world.dangling;
      && (there ==> ok && fs.dirs == old(fs.dirs) && fs.calls == old(fs.calls))
      && (!there && other ==> !ok && fs.dirs == old(fs.dirs) && fs.calls == old(fs.calls))
      && (!there && !other ==> (ok, fs.dirs) == Create(fs.world, old(fs.dirs), path))
  {
    hide Create, CString, Resolve;
    match Stat(fs.world, fs.dirs, path) {
      case Directory => ok := true;
      case Other => ok := false;
      case Missing => ok := CreateDirectories(path, fs);
    }
  }

  lemma {:induction false} MkdirAllKeepsTree(world: World, dirs: set<Dir>, targets: seq<Dir>)
    requires Tree(world, dirs)
    ensures Tree(world, MkdirAll(world, dirs, targets).1)
    decreases |targets|
  {
    hide Tree, Mkdir, Made;
    if targets == [] || Mkdir(world, dirs, targets[0]) == Failed {
    } else {
      MadeIsTree(world, dirs, targets[0]);
      MkdirAllKeepsTree(world, Made(world, dirs, targets[0]), targets[1..]);
    }
  }

  lemma CreateKeepsTree(world: World, dirs: set<Dir>, path: string)
    requires Tree(world, dirs)
    ensures Tree(world, Create(world, dirs, path).1)
  {
    MkdirAllKeepsTree(world, dirs, Resolved(world.cwd, Names(Text(path), 0, 0)));
  }

  /** A second call after one that succeeded succeeds and changes nothing. */
  lemma CreateAgain(world: World, dirs: set<Dir>, path: string)
    requires Tree(world, dirs) && Create(world, dirs, path).0
    ensures var after := Create(world, dirs, path).1; Create(world, after, path) == (true, after)
  {
    var after := Create(world, dirs, path).1;
    var base, all, from := Base(world.cwd, Text(path)), Closed(Text(path)), Skipped(Text(path));
    CreateKeepsTree(world, dirs, path);
    hide Create, Tree, Closed, Text, Passable;
    CreateSucceedsExactlyWhen(world, dirs, path);
    CreateSucceedsExactlyWhen(world, after, path);
    StillClear(world, dirs, after, base, all, from);
    hide ClearWay, Links;
    assert after + (Links(base, all, from) - world.files) == after;
  }

  lemma StillClear(world: World, dirs: set<Dir>, after: set<Dir>, base: Dir, all: Dir, from: nat)
    requires ClearWay(world, dirs, base, all, from) && dirs <= after
    ensures ClearWay(world, after, base, all, from)
  {}

  /** The same with the stat in front. */
  lemma CreateOutputAgain(world: World, dirs: set<Dir>, path: string)
    requires Tree(world, dirs) && CreateOutput(world, dirs, path).0
    ensures var after := CreateOutput(world, dirs, path).1; CreateOutput(world, after, path) == (true, after)
  {
    hide Create, CString, Resolve;
    if Stat(world, dirs, path) == Missing {
      CreateGrows(world, dirs, path);
      CreateKeepsTree(world, dirs, path);
      CreateAgain(world, dirs, path);
    }
  }

  ghost predicate OutputThere(world: World, dirs: set<Dir>, path: string) {
    var (ok, after) := CreateOutput(world, dirs, path);
    ok ==> Target(world, path) in after
  }

  /** With the test in front, success means that the directory exists, unless the path names a link to
      nothing, exactly for the paths that `Reaches` describes and that stat can judge, or that have no
      components. */
  lemma OutputThereExactlyWhen(path: string)
    ensures (forall world: World, dirs: set<Dir> ::
               Tree(world, dirs) && Target(world, path) !in world.dangling ==> OutputThere(world, dirs, path))
       <==> Reaches(path) && (StatSees(CString(path)) || Components(CString(path)) == [])
  {
    hide Reaches, Tree, Create, Target, StatSees, Components;
    if !Reaches(path) {
      var dirs := NotReached(path);
      assert !OutputThere(EMPTY_WORLD, dirs, path) by {
        NotReachedAgain(dirs, path);
      }
    } else if StatSees(CString(path)) || Components(CString(path)) == [] {
      forall world: World, dirs: set<Dir> | Tree(world, dirs) && Target(world, path) !in world.dangling
        ensures OutputThere(world, dirs, path)
      {
        if Create(world, dirs, path).0 {
          ThereExactlyWhen(world, dirs, path);
        }
        if Components(CString(path)) == [] {
          NoComponents(world, dirs, path);
        }
      }
    } else {
      var world, dirs := FileInTheWay(path);
      CreateGrows(world, dirs, path);
      assert !OutputThere(world, dirs, path);
    }
  }

  lemma CreateGrows(world: World, dirs: set<Dir>, path: string)
    requires Tree(world, dirs)
    ensures dirs <= Create(world, dirs, path).1
  {
    hide Create;
    CreateSucceedsExactlyWhen(world, dirs, path);
  }

  lemma NotReachedAgain(dirs: set<Dir>, path: string)
    requires Tree(EMPTY_WORLD, dirs) && !ThereAfter(EMPTY_WORLD, dirs, path)
    ensures !OutputThere(EMPTY_WORLD, dirs, path)
  {
    hide Create, Target, StatSees;
    CreateGrows(EMPTY_WORLD, dirs, path);
  }

  lemma NoComponents(world: World, dirs: set<Dir>, path: string)
    requires Tree(world, dirs) && Components(CString(path)) == []
    ensures Target(world, path) in dirs && Target(world, path) !in world.files
  {
    hide Components, CString;
    var base := Base(world.cwd, CString(path));
    assert base + [] == base;
  }
}
