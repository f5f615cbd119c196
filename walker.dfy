/** recursive_desparse(base, streams): a depth-first, pre-order walk of the
    listing of `base\*`. Directories are walked, sparse files are converted
    (or their streams are), anything else is only reported. */
module Walker {
  import opened FileSystem
  import opened Console
  import opened Converter
  import opened Streams

  /** What the walk prints, and the DWORD it returns: the last error read
      from the listing. */
  datatype WalkResult = WalkResult(error: DWord, events: seq<Event>)

  /** The two pseudo-entries every directory listing holds. */
  predicate IsDot(name: Path) {
    name == "." || name == ".."
  }

  /** The path of entry `name` of directory `base`. */
  function ChildPath(base: Path, name: Path): (p: Path)
    ensures |p| == |base| + 1 + |name|
    ensures p[..|base|] == base && p[|base|] == '\\' && p[|base| + 1..] == name
  {
    base + "\\" + name
  }

  /** What happens to an object handed on for conversion: its streams are
      converted in stream mode, the object itself otherwise. */
  function Convert(path: Path, node: Node, streams: bool): seq<Event> {
    if streams then StreamReport(path, node.streams)
    else [Status(path, Desparse(node.probe).outcome)]
  }

  /** The `i`-th entry an opened listing delivers (0 is FindFirstFileW's). */
  function Nth(c: Cursor<Entry>, i: nat): (e: Entry)
    requires c.Opened? && i <= |c.next|
    ensures e == Items(c)[i]
  {
    if i == 0 then c.first else c.next[i - 1]
  }

  /** Everything recursive_desparse(base, streams) prints, and its result. */
  function Walk(base: Path, node: Node, streams: bool): (r: WalkResult)
    decreases node, 1
  {
    var c := node.listing;
    if c.error == ERROR_DIRECTORY then WalkResult(ERROR_DIRECTORY, [])
    else if c.Refused? then WalkResult(c.error, [FindFirstFileFailed(base, c.error)])
    else
      WalkResult(c.endError,
                 EntriesUpTo(base, node, streams, |Items(c)|)
                 + (if c.endError != ERROR_NO_MORE_FILES then [FindNextFileFailed(base, c.endError)] else []))
  }

  /** What the walk prints for the first `i` entries of `node`'s listing. */
  function EntriesUpTo(base: Path, node: Node, streams: bool, i: nat): (r: seq<Event>)
    requires node.listing.Opened? && i <= |Items(node.listing)|
    decreases node, 0, i
  {
    if i == 0 then []
    else EntriesUpTo(base, node, streams, i - 1) + EntryEvents(base, Nth(node.listing, i - 1), streams)
  }

  /** What the walk prints for one entry of `base`. */
  function EntryEvents(base: Path, e: Entry, streams: bool): (r: seq<Event>)
    decreases e
  {
    if IsDot(e.name) then []
    else if IsDirectory(e.attributes) then Walk(ChildPath(base, e.name), e.node, streams).events
    else if IsSparse(e.attributes) then Convert(ChildPath(base, e.name), e.node, streams)
    else [NotSparseEntry(ChildPath(base, e.name))]
  }

  /** The listing loop of recursive_desparse: handle the entry in hand, ask
      FindNextFileW for the next, stop when it fails. */
  method RecursiveDesparse(base: Path, node: Node, streams: bool) returns (err: DWord, events: seq<Event>)
    ensures WalkResult(err, events) == Walk(base, node, streams)
    decreases node, 1
  {
    var c := node.listing;
    if c.error == ERROR_DIRECTORY {
      return ERROR_DIRECTORY, [];
    }
    if c.Refused? {
      return c.error, [FindFirstFileFailed(base, c.error)];
    }
    var find, k, ret := c.first, 0, true;
    events := [];
    err := c.error;
    while ret
      invariant 0 <= k <= |c.next|
      invariant ret ==> find == Nth(c, k) && events == EntriesUpTo(base, node, streams, k)
      invariant !ret ==> WalkResult(err, events) == Walk(base, node, streams)
      decreases |c.next| - k + (if ret then 1 else 0)
    {
      var out := DesparseEntry(base, find, streams);
      events := events + out;
      ret := k < |c.next|;
      if ret {
        find, k := c.next[k], k + 1;
      } else {
        err := c.endError;
        if err != ERROR_NO_MORE_FILES {
          events := events + [FindNextFileFailed(base, err)];
        }
      }
    }
  }

  /** The body of the listing loop for the entry in hand: "." and ".." are
      skipped, a directory is walked, a sparse file converted (or its
      streams), anything else reported as not sparse. */
  method DesparseEntry(base: Path, e: Entry, streams: bool) returns (out: seq<Event>)
    ensures out == EntryEvents(base, e, streams)
    decreases e
  {
    out := [];
    if !IsDot(e.name) {
      var name := ChildPath(base, e.name);
      if IsDirectory(e.attributes) {
        var _, sub := RecursiveDesparse(name, e.node, streams);
        out := sub;
      } else if IsSparse(e.attributes) {
        if streams {
          out := DesparseStreams(name, e.node.streams);
        } else {
          out := [Status(name, Desparse(e.node.probe).outcome)];
        }
      } else {
        out := [NotSparseEntry(name)];
      }
    }
  }

  /** `p` lies beneath an entry of `node`'s listing other than "." and "..":
      it starts with `base\name` for that entry's name. */
  ghost predicate Beneath(base: Path, node: Node, p: Path) {
    node.listing.Opened?
    && exists k :: 0 <= k <= |node.listing.next| && !IsDot(Nth(node.listing, k).name)
                   && ChildPath(base, Nth(node.listing, k).name) <= p
  }

  /** A walk never composes a path from "." or "..": every line it prints
      names `base` itself (only to report that the listing failed) or a path
      under `base\name` for a real entry `name`. */
  lemma {:induction false} WalkPaths(base: Path, node: Node, streams: bool)
    ensures forall ev :: ev in Walk(base, node, streams).events ==>
              HasPath(ev)
              && (Beneath(base, node, ev.path)
                  || (ev.path == base && (ev.FindFirstFileFailed? || ev.FindNextFileFailed?)))
    decreases node, 1
  {
    var c := node.listing;
    if c.error != ERROR_DIRECTORY && c.Opened? {
      EntriesPaths(base, node, streams, |Items(c)|);
    }
  }

  lemma {:induction false} EntriesPaths(base: Path, node: Node, streams: bool, i: nat)
    requires node.listing.Opened? && i <= |Items(node.listing)|
    ensures forall ev :: ev in EntriesUpTo(base, node, streams, i) ==>
              HasPath(ev) && Beneath(base, node, ev.path)
    decreases node, 0, i
  {
    if i > 0 {
      EntriesPaths(base, node, streams, i - 1);
      var e := Nth(node.listing, i - 1);
      EntryPaths(base, e, streams);
      forall ev | ev in EntryEvents(base, e, streams)
        ensures HasPath(ev) && Beneath(base, node, ev.path)
      {
        assert !IsDot(Nth(node.listing, i - 1).name);
      }
    }
  }

  lemma {:induction false} EntryPaths(base: Path, e: Entry, streams: bool)
    ensures forall ev :: ev in EntryEvents(base, e, streams) ==>
              !IsDot(e.name) && HasPath(ev) && ChildPath(base, e.name) <= ev.path
    decreases e
  {
    var child := ChildPath(base, e.name);
    if IsDot(e.name) {
    } else if IsDirectory(e.attributes) {
      WalkPaths(child, e.node, streams);
      forall ev | ev in Walk(child, e.node, streams).events
        ensures child <= ev.path
      {
        if ev.path != child {
          var k :| 0 <= k <= |e.node.listing.next| && ChildPath(child, Nth(e.node.listing, k).name) <= ev.path;
          PrefixTransitive(child, ChildPath(child, Nth(e.node.listing, k).name), ev.path);
        }
      }
    } else if IsSparse(e.attributes) && streams {
      StreamReportPaths(child, e.node.streams);
    }
  }

  lemma PrefixTransitive(a: Path, b: Path, c: Path)
    requires |a| <= |b| && b[..|a|] == a && b <= c
    ensures a <= c
  {
    assert c[..|a|] == c[..|b|][..|a|];
  }

  /** The census of what a walk hands to the converter: every sparse
      non-directory entry reached through the listings (or each of its
      streams, in stream mode), and how many of those can be cleared. */
  function NodeTally(node: Node, streams: bool): Tally
    decreases node, 1
  {
    var c := node.listing;
    if c.error == ERROR_DIRECTORY || c.Refused? then Tally(0, 0)
    else EntriesTally(node, streams, |Items(c)|)
  }

  function EntriesTally(node: Node, streams: bool, i: nat): Tally
    requires node.listing.Opened? && i <= |Items(node.listing)|
    decreases node, 0, i
  {
    if i == 0 then Tally(0, 0)
    else Sum(EntriesTally(node, streams, i - 1), EntryTally(Nth(node.listing, i - 1), streams))
  }

  function EntryTally(e: Entry, streams: bool): Tally
    decreases e
  {
    if IsDot(e.name) then Tally(0, 0)
    else if IsDirectory(e.attributes) then NodeTally(e.node, streams)
    else if !IsSparse(e.attributes) then Tally(0, 0)
    else if streams then StreamsTally(e.node.streams)
    else ObjectTally(e.node.probe)
  }

  /** A walk prints one converter line per object of the census, and as many
      clears as the census has clearable objects. */
  lemma {:induction false} WalkTally(base: Path, node: Node, streams: bool)
    ensures |Statuses(Walk(base, node, streams).events)| == NodeTally(node, streams).targets
    ensures ClearedCount(Walk(base, node, streams).events) == NodeTally(node, streams).clearable
    decreases node, 1
  {
    var c := node.listing;
    if c.error != ERROR_DIRECTORY && c.Refused? {
      assert [FindFirstFileFailed(base, c.error)][..0] == [];
    } else if c.error != ERROR_DIRECTORY {
      var n := |Items(c)|;
      EntriesCount(base, node, streams, n);
      var tail := if c.endError != ERROR_NO_MORE_FILES then [FindNextFileFailed(base, c.endError)] else [];
      StatusesAppend(EntriesUpTo(base, node, streams, n), tail);
      if tail != [] {
        assert tail[..0] == [];
      }
    }
  }

  lemma {:induction false} EntriesCount(base: Path, node: Node, streams: bool, i: nat)
    requires node.listing.Opened? && i <= |Items(node.listing)|
    ensures |Statuses(EntriesUpTo(base, node, streams, i))| == EntriesTally(node, streams, i).targets
    ensures ClearedCount(EntriesUpTo(base, node, streams, i)) == EntriesTally(node, streams, i).clearable
    decreases node, 0, i
  {
    if i > 0 {
      var e := Nth(node.listing, i - 1);
      EntriesCount(base, node, streams, i - 1);
      EntryCount(base, e, streams);
      TallyAppend(EntriesUpTo(base, node, streams, i - 1), EntryEvents(base, e, streams),
                  EntriesTally(node, streams, i - 1), EntryTally(e, streams));
    }
  }

  lemma {:induction false} EntryCount(base: Path, e: Entry, streams: bool)
    ensures |Statuses(EntryEvents(base, e, streams))| == EntryTally(e, streams).targets
    ensures ClearedCount(EntryEvents(base, e, streams)) == EntryTally(e, streams).clearable
    decreases e
  {
    var child := ChildPath(base, e.name);
    if IsDot(e.name) {
    } else if IsDirectory(e.attributes) {
      WalkTally(child, e.node, streams);
    } else if !IsSparse(e.attributes) {
      assert [NotSparseEntry(child)][..0] == [];
    } else if streams {
      StreamReportTally(child, e.node.streams);
    } else {
      LineTally(child, e.node.probe);
    }
  }

  lemma {:induction false} TallyAppend(a: seq<Event>, b: seq<Event>, ta: Tally, tb: Tally)
    requires |Statuses(a)| == ta.targets && ClearedCount(a) == ta.clearable
    requires |Statuses(b)| == tb.targets && ClearedCount(b) == tb.clearable
    ensures |Statuses(a + b)| == ta.targets + tb.targets
    ensures ClearedCount(a + b) == ta.clearable + tb.clearable
  {
    StatusesAppend(a, b);
  }

  /** Every object the walk of `node` hands to the converter is sparse,
      opens, has two known and equal sizes and accepts the clear request. */
  predicate TreeClearable(node: Node, streams: bool)
    decreases node, 1
  {
    var c := node.listing;
    c.error == ERROR_DIRECTORY || c.Refused?
    || forall k :: 0 <= k <= |c.next| ==> EntryClearable(Nth(c, k), streams)
  }

  predicate EntryClearable(e: Entry, streams: bool)
    decreases e
  {
    if IsDot(e.name) then true
    else if IsDirectory(e.attributes) then TreeClearable(e.node, streams)
    else if !IsSparse(e.attributes) then true
    else if streams then StreamsClearable(e.node.streams)
    else Convertible(e.node.probe) && e.node.probe.clearSucceeds
  }

  predicate StreamsClearable(c: Cursor<Stream>) {
    c.error == ERROR_HANDLE_EOF || c.Refused?
    || forall s :: s in Items(c) ==> Convertible(s.probe) && s.probe.clearSucceeds
  }

  /** When every object in the tree can be cleared, the walk clears every
      object it converts: as many clears as status lines. */
  lemma {:induction false} WalkClearsAll(base: Path, node: Node, streams: bool)
    requires TreeClearable(node, streams)
    ensures ClearedCount(Walk(base, node, streams).events) == |Statuses(Walk(base, node, streams).events)|
  {
    WalkTally(base, node, streams);
    TreeTallyFull(node, streams);
  }

  lemma {:induction false} TreeTallyFull(node: Node, streams: bool)
    requires TreeClearable(node, streams)
    ensures NodeTally(node, streams).clearable == NodeTally(node, streams).targets
    decreases node, 1
  {
    var c := node.listing;
    if c.error != ERROR_DIRECTORY && c.Opened? {
      EntriesTallyFull(node, streams, |Items(c)|);
    }
  }

  lemma {:induction false} EntriesTallyFull(node: Node, streams: bool, i: nat)
    requires node.listing.Opened? && i <= |Items(node.listing)|
    requires node.listing.error != ERROR_DIRECTORY && TreeClearable(node, streams)
    ensures EntriesTally(node, streams, i).clearable == EntriesTally(node, streams, i).targets
    decreases node, 0, i
  {
    if i > 0 {
      EntriesTallyFull(node, streams, i - 1);
      EntryTallyFull(Nth(node.listing, i - 1), streams);
    }
  }

  lemma {:induction false} EntryTallyFull(e: Entry, streams: bool)
    requires EntryClearable(e, streams)
    ensures EntryTally(e, streams).clearable == EntryTally(e, streams).targets
    decreases e
  {
    if IsDot(e.name) {
    } else if IsDirectory(e.attributes) {
      TreeTallyFull(e.node, streams);
    } else if IsSparse(e.attributes) && streams {
      var c := e.node.streams;
      if c.error != ERROR_HANDLE_EOF && c.Opened? {
        ListTallyFull(Items(c));
      }
    }
  }

  lemma {:induction false} ListTallyFull(list: seq<Stream>)
    requires forall s :: s in list ==> Convertible(s.probe) && s.probe.clearSucceeds
    ensures ListTally(list).clearable == ListTally(list).targets
    decreases |list|
  {
    if list != [] {
      ListTallyFull(list[..|list| - 1]);
    }
  }

  /** The objects a walk hands to the converter, in the order it reaches
      them: each sparse non-directory entry under its path (or, in stream
      mode, each of its streams), at any depth. */
  function NodeTargets(base: Path, node: Node, streams: bool): seq<Target>
    decreases node, 1
  {
    var c := node.listing;
    if c.error == ERROR_DIRECTORY || c.Refused? then []
    else EntriesTargets(base, node, streams, |Items(c)|)
  }

  function EntriesTargets(base: Path, node: Node, streams: bool, i: nat): seq<Target>
    requires node.listing.Opened? && i <= |Items(node.listing)|
    decreases node, 0, i
  {
    if i == 0 then []
    else EntriesTargets(base, node, streams, i - 1) + EntryTargets(base, Nth(node.listing, i - 1), streams)
  }

  function EntryTargets(base: Path, e: Entry, streams: bool): seq<Target>
    decreases e
  {
    var child := ChildPath(base, e.name);
    if IsDot(e.name) then []
    else if IsDirectory(e.attributes) then NodeTargets(child, e.node, streams)
    else if !IsSparse(e.attributes) then []
    else if streams then StreamTargets(child, e.node.streams)
    else [Target(child, e.node.probe)]
  }

  /** The status lines a walk prints are the converter's lines for its
      targets, in order: each object gets its own outcome, so the walk
      clears exactly the objects whose replies allow it. */
  lemma {:induction false} WalkStatuses(base: Path, node: Node, streams: bool)
    ensures Statuses(Walk(base, node, streams).events) == StatusLines(NodeTargets(base, node, streams))
    decreases node, 1
  {
    var c := node.listing;
    if c.error != ERROR_DIRECTORY && c.Refused? {
      assert [FindFirstFileFailed(base, c.error)][..0] == [];
    } else if c.error != ERROR_DIRECTORY {
      var n := |Items(c)|;
      EntriesStatuses(base, node, streams, n);
      var tail := if c.endError != ERROR_NO_MORE_FILES then [FindNextFileFailed(base, c.endError)] else [];
      StatusesAppend(EntriesUpTo(base, node, streams, n), tail);
      if tail != [] {
        assert tail[..0] == [];
      }
    }
  }

  lemma {:induction false} EntriesStatuses(base: Path, node: Node, streams: bool, i: nat)
    requires node.listing.Opened? && i <= |Items(node.listing)|
    ensures Statuses(EntriesUpTo(base, node, streams, i)) == StatusLines(EntriesTargets(base, node, streams, i))
    decreases node, 0, i
  {
    if i > 0 {
      var e := Nth(node.listing, i - 1);
      EntriesStatuses(base, node, streams, i - 1);
      EntryStatuses(base, e, streams);
      StatusesJoin(EntriesUpTo(base, node, streams, i - 1), EntryEvents(base, e, streams),
                   EntriesTargets(base, node, streams, i - 1), EntryTargets(base, e, streams));
    }
  }

  lemma StatusesJoin(a: seq<Event>, b: seq<Event>, ta: seq<Target>, tb: seq<Target>)
    requires Statuses(a) == StatusLines(ta) && Statuses(b) == StatusLines(tb)
    ensures Statuses(a + b) == StatusLines(ta + tb)
  {
    StatusesAppend(a, b);
    StatusLinesAppend(ta, tb);
  }

  lemma {:induction false} EntryStatuses(base: Path, e: Entry, streams: bool)
    ensures Statuses(EntryEvents(base, e, streams)) == StatusLines(EntryTargets(base, e, streams))
    decreases e
  {
    var child := ChildPath(base, e.name);
    if IsDot(e.name) {
    } else if IsDirectory(e.attributes) {
      WalkStatuses(child, e.node, streams);
    } else if !IsSparse(e.attributes) {
      assert [NotSparseEntry(child)][..0] == [];
    } else if streams {
      StreamReportStatuses(child, e.node.streams);
    } else {
      var line := [Status(child, Desparse(e.node.probe).outcome)];
      assert line[..0] == [];
    }
  }
}
