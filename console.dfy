/** What desparse writes: one event per line it prints, in order. The text of
    a line is not modelled, only its kind and the path and error it names. */
module Console {
  import opened FileSystem

  /** How one call of the converter ended; the phrase after the path. */
  datatype Outcome =
    | AttributesFailed(error: DWord)  // " can't get attributes: …"
    | NotSparse                       // " not a sparse file"
    | OpenFailed(error: DWord)        // " CreateFile failed: …"
    | SizeFailed(error: DWord)        // " can't get size: …" (either size query)
    | NotFullyFilled                  // " not fully filled"
    | Cleared                         // " removed sparse flag"
    | ClearFailed(error: DWord)       // " DeviceIoControl failed: …"

  /** The outcomes after which the clear-sparse request was issued. */
  predicate IssuesClear(o: Outcome) {
    o.Cleared? || o.ClearFailed?
  }

  datatype Event =
    | Usage                                           // the usage text
    | UnknownOption(option: char)                     // "unknown option: -c", standard error
    | Status(path: Path, outcome: Outcome)            // the converter's "<path> <outcome>" line
    | NotSparseEntry(path: Path)                      // the walker's "<path> is not a sparse file"
    | FindFirstFileFailed(path: Path, error: DWord)   // standard error
    | FindNextFileFailed(path: Path, error: DWord)    // standard error
    | FindFirstStreamFailed(path: Path, error: DWord) // standard error
    | FindNextStreamFailed(path: Path, error: DWord)  // standard error

  /** Every line names a path except the usage text and the unknown-option
      complaint. */
  predicate HasPath(e: Event) {
    !e.Usage? && !e.UnknownOption?
  }

  /** The converter's status lines among `events`, in order. */
  function Statuses(events: seq<Event>): seq<Event> {
    if events == [] then []
    else Statuses(events[..|events| - 1])
         + (if events[|events| - 1].Status? then [events[|events| - 1]] else [])
  }

  /** How many of `events` report a cleared sparse flag. */
  function ClearedCount(events: seq<Event>): nat {
    if events == [] then 0
    else ClearedCount(events[..|events| - 1])
         + (if events[|events| - 1].Status? && events[|events| - 1].outcome.Cleared? then 1 else 0)
  }

  lemma {:induction false} StatusesAppend(a: seq<Event>, b: seq<Event>)
    ensures Statuses(a + b) == Statuses(a) + Statuses(b)
    ensures ClearedCount(a + b) == ClearedCount(a) + ClearedCount(b)
    decreases |b|
  {
    if b == [] {
      assert a + b == a;
    } else {
      var b' := b[..|b| - 1];
      assert (a + b)[..|a + b| - 1] == a + b';
      StatusesAppend(a, b');
      assert Statuses(a + b) == Statuses(a + b') + Statuses([b[|b| - 1]]);
    }
  }

  /** A list made only of status lines is its own list of status lines. */
  lemma {:induction false} StatusesOfStatuses(events: seq<Event>)
    requires forall k :: 0 <= k < |events| ==> events[k].Status?
    ensures Statuses(events) == events
    decreases |events|
  {
    if events != [] {
      StatusesOfStatuses(events[..|events| - 1]);
    }
  }
}
