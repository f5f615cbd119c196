/** desparse(f): the per-object conversion. A cascade of queries that ends in
    exactly one outcome; the sparse flag is cleared only at the end of the
    path on which every query agrees that the object is sparse and has no
    holes. */
module Converter {
  import opened FileSystem
  import opened Console

  /** The system calls the converter makes, in the order it makes them. */
  datatype Call = GetAttributes | Open | GetSize | GetAllocatedSize | SetSparse | Close

  /** One run of the converter: the phrase it prints after the path, the
      DWORD it returns and the calls it made. */
  datatype Conversion = Conversion(outcome: Outcome, error: DWord, calls: seq<Call>)

  predicate AttributesKnown(p: Probe) {
    p.attributes != INVALID_FILE_ATTRIBUTES
  }

  /** GetCompressedFileSizeW is taken to have failed only when its low word
      is INVALID_FILE_SIZE and the last error is set. */
  predicate AllocatedKnown(p: Probe) {
    !(p.allocatedLow == INVALID_FILE_SIZE && p.allocatedError != NO_ERROR)
  }

  /** The object is sparse, can be opened, both its sizes are known and they
      agree: the only situation in which the flag may be cleared. */
  predicate Convertible(p: Probe) {
    AttributesKnown(p) && IsSparse(p.attributes) && p.opens
    && p.sizeKnown && AllocatedKnown(p) && p.logicalSize == AllocatedSize(p)
  }

  /** desparse(f), for the object whose replies are `p`. */
  function Desparse(p: Probe): (c: Conversion)
    // the flag is cleared exactly when every check passed and the request worked
    ensures SetSparse in c.calls <==> Convertible(p)
    ensures IssuesClear(c.outcome) <==> Convertible(p)
    ensures c.outcome == Cleared <==> Convertible(p) && p.clearSucceeds
    // the two refusals are not errors of the system and return ERROR_FILE_EXISTS
    ensures c.outcome == NotSparse <==> AttributesKnown(p) && !IsSparse(p.attributes)
    ensures c.outcome == NotFullyFilled <==>
              AttributesKnown(p) && IsSparse(p.attributes) && p.opens && p.sizeKnown
              && AllocatedKnown(p) && p.logicalSize != AllocatedSize(p)
    ensures c.outcome in {NotSparse, NotFullyFilled} ==> c.error == ERROR_FILE_EXISTS
    // the handle is opened only for a sparse object, and then closed exactly once, last
    ensures Open in c.calls <==> AttributesKnown(p) && IsSparse(p.attributes)
    ensures Close in c.calls <==> Open in c.calls && p.opens
    ensures Close in c.calls ==> c.calls[|c.calls| - 1] == Close
    ensures forall i :: 0 <= i < |c.calls| - 1 ==> c.calls[i] != Close
    // each failure is reported as the failure of the call that failed, and
    // the error printed and returned is that call's
    ensures c.outcome == AttributesFailed(p.attributesError) <==> !AttributesKnown(p)
    ensures c.outcome == OpenFailed(p.openError) <==> AttributesKnown(p) && IsSparse(p.attributes) && !p.opens
    ensures c.outcome.SizeFailed? <==>
              AttributesKnown(p) && IsSparse(p.attributes) && p.opens && (!p.sizeKnown || !AllocatedKnown(p))
    ensures c.outcome.SizeFailed? ==>
              c.outcome.error == c.error == (if !p.sizeKnown then p.sizeError else p.allocatedError)
    ensures c.outcome == ClearFailed(p.clearError) <==> Convertible(p) && !p.clearSucceeds
    ensures c.outcome.AttributesFailed? || c.outcome.OpenFailed? || c.outcome.ClearFailed? ==>
              c.outcome.error == c.error
    ensures c.calls != [] && c.calls[0] == GetAttributes
  {
    if !AttributesKnown(p) then
      Conversion(AttributesFailed(p.attributesError), p.attributesError, [GetAttributes])
    else if !IsSparse(p.attributes) then
      Conversion(NotSparse, ERROR_FILE_EXISTS, [GetAttributes])
    else if !p.opens then
      Conversion(OpenFailed(p.openError), p.openError, [GetAttributes, Open])
    else if !p.sizeKnown then
      Conversion(SizeFailed(p.sizeError), p.sizeError, [GetAttributes, Open, GetSize, Close])
    else if !AllocatedKnown(p) then
      Conversion(SizeFailed(p.allocatedError), p.allocatedError,
                 [GetAttributes, Open, GetSize, GetAllocatedSize, Close])
    else if p.logicalSize != AllocatedSize(p) then
      Conversion(NotFullyFilled, ERROR_FILE_EXISTS,
                 [GetAttributes, Open, GetSize, GetAllocatedSize, Close])
    else
      Conversion(if p.clearSucceeds then Cleared else ClearFailed(p.clearError), p.clearError,
                 [GetAttributes, Open, GetSize, GetAllocatedSize, SetSparse, Close])
  }

  /** A count of objects handed to the converter: all of them, and those
      among them it clears. */
  datatype Tally = Tally(targets: nat, clearable: nat)

  function Sum(a: Tally, b: Tally): Tally {
    Tally(a.targets + b.targets, a.clearable + b.clearable)
  }

  /** One object, counted as clearable when its replies let the converter
      clear it. */
  function ObjectTally(p: Probe): Tally {
    Tally(1, if Convertible(p) && p.clearSucceeds then 1 else 0)
  }

  /** The converter's one line for an object counts as that object. */
  lemma LineTally(path: Path, p: Probe)
    ensures |Statuses([Status(path, Desparse(p).outcome)])| == ObjectTally(p).targets
    ensures ClearedCount([Status(path, Desparse(p).outcome)]) == ObjectTally(p).clearable
  {
    var line := [Status(path, Desparse(p).outcome)];
    assert line[..0] == [];
  }

  /** An object handed to the converter: the path it is addressed by and the
      replies the system gives for it. */
  datatype Target = Target(path: Path, probe: Probe)

  /** The converter's status lines for `targets`, one per target, in order. */
  function StatusLines(targets: seq<Target>): (r: seq<Event>)
    ensures |r| == |targets|
    ensures forall k :: 0 <= k < |targets| ==>
              r[k] == Status(targets[k].path, Desparse(targets[k].probe).outcome)
  {
    if targets == [] then []
    else
      var last := targets[|targets| - 1];
      StatusLines(targets[..|targets| - 1]) + [Status(last.path, Desparse(last.probe).outcome)]
  }

  lemma StatusLinesAppend(a: seq<Target>, b: seq<Target>)
    ensures StatusLines(a + b) == StatusLines(a) + StatusLines(b)
  {
    assert forall k :: 0 <= k < |a + b| ==> StatusLines(a + b)[k] == (StatusLines(a) + StatusLines(b))[k];
  }
}
