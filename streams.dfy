/** desparse_streams(f): converts every stream FindFirstStreamW and
    FindNextStreamW report for `f`, addressing each as `f` followed directly
    by the stream's name. */
module Streams {
  import opened FileSystem
  import opened Console
  import opened Converter

  /** The address of stream `s` of `f`: the name already starts with ':', so
      nothing is put between the two. */
  function StreamPath(f: Path, s: Stream): (p: Path)
    ensures |p| == |f| + |s.name| && p[..|f|] == f && p[|f|..] == s.name
  {
    f + s.name
  }

  /** The converter's lines for `streams`, in enumeration order. */
  function StreamLines(f: Path, streams: seq<Stream>): (r: seq<Event>)
    ensures |r| == |streams|
    ensures forall k :: 0 <= k < |streams| ==>
              r[k] == Status(StreamPath(f, streams[k]), Desparse(streams[k].probe).outcome)
  {
    if streams == [] then []
    else
      var last := streams[|streams| - 1];
      StreamLines(f, streams[..|streams| - 1])
      + [Status(StreamPath(f, last), Desparse(last.probe).outcome)]
  }

  /** Everything desparse_streams(f) prints when the enumeration of `f`'s
      streams behaves as `c`. */
  function StreamReport(f: Path, c: Cursor<Stream>): (r: seq<Event>)
    // nothing at all is printed exactly when the first lookup says end-of-file
    ensures r == [] <==> c.error == ERROR_HANDLE_EOF
    // otherwise: one converter line per enumerated stream, in order, and at
    // most one trailing enumeration fault
    ensures c.error != ERROR_HANDLE_EOF && c.Opened? ==>
              |r| - |Items(c)| in {0, 1} && r[..|Items(c)|] == StreamLines(f, Items(c))
    ensures c.error != ERROR_HANDLE_EOF && c.Opened? ==>
              (|r| == |Items(c)| <==> c.endError == ERROR_HANDLE_EOF)
    // and that trailing line is the FindNextStreamW fault
    ensures c.error != ERROR_HANDLE_EOF && c.Opened? && |r| > |Items(c)| ==>
              r[|r| - 1] == FindNextStreamFailed(f, c.endError)
    ensures c.error != ERROR_HANDLE_EOF && c.Refused? ==> r == [FindFirstStreamFailed(f, c.error)]
  {
    if c.error == ERROR_HANDLE_EOF then []
    else if c.Refused? then [FindFirstStreamFailed(f, c.error)]
    else
      StreamLines(f, Items(c))
      + (if c.endError != ERROR_HANDLE_EOF then [FindNextStreamFailed(f, c.endError)] else [])
  }

  /** The cursor loop of desparse_streams: convert the stream in hand, ask
      FindNextStreamW for the next, stop when it fails. */
  method DesparseStreams(f: Path, c: Cursor<Stream>) returns (events: seq<Event>)
    ensures events == StreamReport(f, c)
  {
    if c.error == ERROR_HANDLE_EOF {
      return [];
    }
    if c.Refused? {
      return [FindFirstStreamFailed(f, c.error)];
    }
    var found, k, ret := c.first, 0, true;
    events := [];
    while ret
      invariant 0 <= k <= |c.next|
      invariant ret ==> found == Items(c)[k] && events == StreamLines(f, Items(c)[..k])
      invariant !ret ==> events == StreamReport(f, c)
      decreases |c.next| - k + (if ret then 1 else 0)
    {
      StreamLinesSnoc(f, Items(c), k);
      events := events + [Status(StreamPath(f, found), Desparse(found.probe).outcome)];
      ret := k < |c.next|;
      if ret {
        found, k := c.next[k], k + 1;
      } else {
        assert Items(c)[..k + 1] == Items(c);
        if c.endError != ERROR_HANDLE_EOF {
          events := events + [FindNextStreamFailed(f, c.endError)];
        }
      }
    }
  }

  lemma StreamLinesSnoc(f: Path, streams: seq<Stream>, k: nat)
    requires k < |streams|
    ensures StreamLines(f, streams[..k + 1])
            == StreamLines(f, streams[..k]) + [Status(StreamPath(f, streams[k]), Desparse(streams[k].probe).outcome)]
  {
    assert streams[..k + 1][..k] == streams[..k];
  }

  /** The streams an enumeration hands to the converter. */
  function StreamsTally(c: Cursor<Stream>): Tally {
    if c.error == ERROR_HANDLE_EOF || c.Refused? then Tally(0, 0)
    else ListTally(Items(c))
  }

  function ListTally(streams: seq<Stream>): Tally {
    if streams == [] then Tally(0, 0)
    else Sum(ListTally(streams[..|streams| - 1]), ObjectTally(streams[|streams| - 1].probe))
  }

  /** Every line desparse_streams(f) prints names `f` or one of its streams. */
  lemma StreamReportPaths(f: Path, c: Cursor<Stream>)
    ensures forall ev :: ev in StreamReport(f, c) ==> HasPath(ev) && f <= ev.path
  {
    var r := StreamReport(f, c);
    forall ev | ev in r ensures HasPath(ev) && f <= ev.path {
      var j :| 0 <= j < |r| && r[j] == ev;
      if c.Opened? && j < |Items(c)| {
        assert ev == Status(StreamPath(f, Items(c)[j]), Desparse(Items(c)[j].probe).outcome);
      }
    }
  }

  /** desparse_streams prints one converter line per enumerated stream, and
      as many clears as there are streams whose replies allow one. */
  lemma {:induction false} StreamReportTally(f: Path, c: Cursor<Stream>)
    ensures |Statuses(StreamReport(f, c))| == StreamsTally(c).targets
    ensures ClearedCount(StreamReport(f, c)) == StreamsTally(c).clearable
  {
    if c.error != ERROR_HANDLE_EOF && c.Opened? {
      StreamLinesTally(f, Items(c));
      var tail := if c.endError != ERROR_HANDLE_EOF then [FindNextStreamFailed(f, c.endError)] else [];
      StatusesAppend(StreamLines(f, Items(c)), tail);
      if tail != [] {
        assert tail[..0] == [];
      }
    } else if c.Refused? && c.error != ERROR_HANDLE_EOF {
      assert [FindFirstStreamFailed(f, c.error)][..0] == [];
    }
  }

  lemma {:induction false} StreamLinesTally(f: Path, streams: seq<Stream>)
    ensures |Statuses(StreamLines(f, streams))| == ListTally(streams).targets
    ensures ClearedCount(StreamLines(f, streams)) == ListTally(streams).clearable
    decreases |streams|
  {
    if streams != [] {
      var init := streams[..|streams| - 1];
      var last := streams[|streams| - 1];
      StreamLinesTally(f, init);
      var line := Status(StreamPath(f, last), Desparse(last.probe).outcome);
      StatusesAppend(StreamLines(f, init), [line]);
      LineTally(StreamPath(f, last), last.probe);
    }
  }

  /** The objects desparse_streams(f) hands to the converter: each
      enumerated stream, under its stream path. */
  function StreamTargets(f: Path, c: Cursor<Stream>): seq<Target> {
    if c.error == ERROR_HANDLE_EOF || c.Refused? then [] else ListTargets(f, Items(c))
  }

  function ListTargets(f: Path, streams: seq<Stream>): seq<Target> {
    seq(|streams|, k requires 0 <= k < |streams| => Target(StreamPath(f, streams[k]), streams[k].probe))
  }

  /** The status lines desparse_streams(f) prints are the converter's lines
      for its targets, in order, each with its own stream's outcome. */
  lemma StreamReportStatuses(f: Path, c: Cursor<Stream>)
    ensures Statuses(StreamReport(f, c)) == StatusLines(StreamTargets(f, c))
  {
    if c.error != ERROR_HANDLE_EOF && c.Opened? {
      var lines := StreamLines(f, Items(c));
      var tail := if c.endError != ERROR_HANDLE_EOF then [FindNextStreamFailed(f, c.endError)] else [];
      assert StreamReport(f, c) == lines + tail;
      StatusesAppend(lines, tail);
      StreamLinesStatuses(f, Items(c));
      if tail != [] {
        assert tail[..0] == [];
      }
    } else if c.Refused? && c.error != ERROR_HANDLE_EOF {
      assert [FindFirstStreamFailed(f, c.error)][..0] == [];
    }
  }

  lemma StreamLinesStatuses(f: Path, streams: seq<Stream>)
    ensures Statuses(StreamLines(f, streams)) == StatusLines(ListTargets(f, streams))
  {
    var lines := StreamLines(f, streams);
    StatusesOfStatuses(lines);
    assert lines == StatusLines(ListTargets(f, streams));
  }
}
