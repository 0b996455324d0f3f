/** The export file: `FileSink`.

  It writes `<destination>.tmp` through a buffered stream and moves it over the destination
  at the end.  Every system call takes its outcome from the caller: how much of a write is
  taken, how much of the buffer reaches the disk, which call fails. */
module FileSinks {
  import opened Basics
  import opened Utf8

  type Content = Option<Bytes>

  datatype Renaming = Moved | CrossDevice | Refused

  /** `Torn`: the copy failed and left this at the destination. */
  datatype Copying = Copied | Torn(rest: Content)

  /** The outcomes of the calls of one `Finish`. */
  datatype Faults = Faults(
    flushed: bool, closed: bool, spilled: nat, renaming: Renaming, copying: Copying, removed: bool)

  datatype Call =
    | Write(bytes: Bytes, taken: nat, spilled: nat)
    | Finish(faults: Faults)
    | Destroy(spilled: nat, removed: bool)

  /** The two files, the stream's buffer while the stream is open, and the flag.  The rest is
      history: the bytes handed to the open sink, the bytes it took, whether a copy tore the
      destination. */
  datatype Sink = Sink(
    dest: Content, temp: Content, buffer: Option<Bytes>, finished: bool,
    handed: Bytes, taken: Bytes, torn: bool)

  /** The stream gives its first `n` bytes to the file. */
  function Spill(temp: Content, buffer: Bytes, n: nat): Content {
    if temp.Some? then Some(temp.value + buffer[..Min(n, |buffer|)]) else temp
  }

  function Opened(dest: Content): Sink { Sink(dest, Some([]), Some([]), false, [], [], false) }

  /** Is a write of the open sink cut short? */
  predicate Short(s: Sink, call: Call) {
    call.Write? && s.buffer.Some? && call.taken < |call.bytes|
  }

  predicate Throws(s: Sink, call: Call) {
    match call
    case Write(_, _, _) => s.buffer.None? || Short(s, call)
    case Finish(f) => !s.finished && (s.buffer.None? || !Publishes(f))
    case Destroy(_, _) => false
  }

  /** Do the outcomes bring the file to the destination? */
  predicate Publishes(f: Faults) {
    && f.flushed && f.closed
    && (f.renaming.Moved? || (f.renaming.CrossDevice? && f.copying.Copied?))
  }

  function AfterWrite(s: Sink, bytes: Bytes, taken: nat, spilled: nat): Sink {
    if s.buffer.None? || bytes == [] then s
    else
      var took := bytes[..Min(taken, |bytes|)];
      var all := s.buffer.value + took;
      s.(temp := Spill(s.temp, all, spilled), buffer := Some(all[Min(spilled, |all|)..]),
         handed := s.handed + bytes, taken := s.taken + took)
  }

  function Unlinked(temp: Content, removed: bool): Content { if removed then None else temp }

  /** The flush and the close went through. */
  function AfterClose(s: Sink, full: Content, f: Faults): Sink {
    match f.renaming
    case Moved => s.(dest := full, temp := None, buffer := None, finished := true)
    case Refused => s.(temp := Unlinked(full, f.removed), buffer := None)
    case CrossDevice =>
      match f.copying
      case Copied => s.(dest := full, temp := Unlinked(full, f.removed), buffer := None, finished := true)
      case Torn(rest) => s.(dest := rest, temp := Unlinked(full, f.removed), buffer := None, torn := true)
  }

  function AfterFinish(s: Sink, f: Faults): Sink {
    if s.finished || s.buffer.None? then s
    else if !f.flushed || !f.closed then
      s.(temp := Spill(s.temp, s.buffer.value, if f.flushed then |s.buffer.value| else f.spilled), buffer := None)
    else AfterClose(s, Spill(s.temp, s.buffer.value, |s.buffer.value|), f)
  }

  function AfterDestroy(s: Sink, spilled: nat, removed: bool): Sink {
    if s.finished then s
    else
      var temp := if s.buffer.Some? then Spill(s.temp, s.buffer.value, spilled) else s.temp;
      s.(temp := Unlinked(temp, removed), buffer := None)
  }

  function After(s: Sink, call: Call): Sink {
    match call
    case Write(bytes, taken, spilled) => AfterWrite(s, bytes, taken, spilled)
    case Finish(f) => AfterFinish(s, f)
    case Destroy(spilled, removed) => AfterDestroy(s, spilled, removed)
  }

  function Run(dest: Content, calls: seq<Call>): Sink {
    if calls == [] then Opened(dest) else After(Run(dest, calls[..|calls| - 1]), calls[|calls| - 1])
  }

  // ----- All or nothing -----

  /** Was a write of the still open sink cut short, anywhere in the run? */
  predicate AnyShort(dest: Content, calls: seq<Call>) {
    calls != [] &&
    (AnyShort(dest, calls[..|calls| - 1]) || Short(Run(dest, calls[..|calls| - 1]), calls[|calls| - 1]))
  }

  predicate Consistent(s: Sink, dest: Content) {
    && (s.buffer.Some? ==> !s.finished && s.temp.Some? && s.temp.value + s.buffer.value == s.taken)
    && (s.finished ==> s.dest == Some(s.taken))
    && (s.torn ==> s.buffer.None? && !s.finished)
    && (!s.finished && !s.torn ==> s.dest == dest)
    && |s.taken| <= |s.handed|
  }

  lemma SpillKeeps(temp: Bytes, buffer: Bytes, n: nat)
    ensures (temp + buffer[..Min(n, |buffer|)]) + buffer[Min(n, |buffer|)..] == temp + buffer
  {
    assert buffer[..Min(n, |buffer|)] + buffer[Min(n, |buffer|)..] == buffer;
  }

  lemma AfterConsistent(s: Sink, dest: Content, call: Call)
    requires Consistent(s, dest)
    ensures Consistent(After(s, call), dest)
  {
    if s.buffer.Some? {
      match call
      case Write(bytes, taken, spilled) =>
        var took := bytes[..Min(taken, |bytes|)];
        SpillKeeps(s.temp.value, s.buffer.value + took, spilled);
        assert s.temp.value + (s.buffer.value + took) == s.taken + took;
      case Finish(f) =>
        assert s.buffer.value[..|s.buffer.value|] == s.buffer.value;
      case _ =>
    }
  }

  /** The bytes taken are those handed in exactly as long as no write was cut short. */
  lemma {:induction false} RunConsistent(dest: Content, calls: seq<Call>)
    ensures var s := Run(dest, calls);
            Consistent(s, dest) && (AnyShort(dest, calls) <==> |s.taken| < |s.handed|)
            && (!AnyShort(dest, calls) ==> s.taken == s.handed)
  {
    if calls != [] {
      var init, call := calls[..|calls| - 1], calls[|calls| - 1];
      RunConsistent(dest, init);
      AfterConsistent(Run(dest, init), dest, call);
      if call.Write? && call.taken >= |call.bytes| {
        assert call.bytes[..|call.bytes|] == call.bytes;
      }
    }
  }

  /** After every run of calls, whatever fails: unless a cross-device copy failed, an
      unfinished sink has left the destination as it was; a finished one has published, and
      what it published is everything that was handed in exactly when no write threw. */
  lemma AllOrNothing(dest: Content, calls: seq<Call>)
    ensures var s := Run(dest, calls);
            && (!s.finished && !s.torn ==> s.dest == dest)
            && (s.finished ==> s.dest.Some? && !s.torn && s.buffer.None?
                               && (s.dest == Some(s.handed) <==> !AnyShort(dest, calls)))
  {
    RunConsistent(dest, calls);
  }

  /** A finished sink stays as it is: no later write, finish or destruction touches a file. */
  lemma {:induction false} FinishedIsFinal(dest: Content, calls: seq<Call>, more: seq<Call>)
    requires Run(dest, calls).finished
    ensures Run(dest, calls + more) == Run(dest, calls)
  {
    RunConsistent(dest, calls);
    if more == [] {
      assert calls + more == calls;
    } else {
      FinishedIsFinal(dest, calls, more[..|more| - 1]);
      assert (calls + more)[..|calls + more| - 1] == calls + more[..|more| - 1];
    }
  }

  /** Finishing an open sink with no fault publishes, even after a write that threw: the
      published file is then too short, and only then. */
  lemma FinishAfterFailedWrite(dest: Content, calls: seq<Call>, f: Faults)
    requires Run(dest, calls).buffer.Some? && Publishes(f)
    ensures var s := Run(dest, calls + [Finish(f)]);
            && s.finished && s.dest.Some? && s.handed == Run(dest, calls).handed
            && (|s.dest.value| < |s.handed| <==> AnyShort(dest, calls))
            && (!AnyShort(dest, calls) ==> s.dest.value == s.handed)
  {
    RunConsistent(dest, calls);
    AfterConsistent(Run(dest, calls), dest, Finish(f));
    assert (calls + [Finish(f)])[..|calls|] == calls;
  }

  // ----- No exception means done -----

  /** A write of an open sink goes without an exception exactly when all its bytes are taken;
      otherwise a proper prefix is.  A closed sink throws and takes nothing. */
  lemma WriteReports(s: Sink, bytes: Bytes, taken: nat, spilled: nat)
    ensures var n, threw := After(s, Write(bytes, taken, spilled)), Throws(s, Write(bytes, taken, spilled));
            && (s.buffer.Some? ==>
                  && (!threw <==> n.taken == s.taken + bytes)
                  && n.handed == s.handed + bytes && s.taken <= n.taken <= s.taken + bytes
                  && n.buffer.Some?)
            && (s.buffer.None? ==> threw && n == s)
  {
    if s.buffer.Some? {
      var took := bytes[..Min(taken, |bytes|)];
      assert s.taken + bytes == (s.taken + took) + bytes[|took|..];
      if taken >= |bytes| {
        assert took == bytes;
      } else {
        assert |s.taken + took| < |s.taken + bytes|;
      }
    }
  }

  /** `Finish` goes without an exception exactly when the sink is finished behind it, and then
      the destination holds every byte that was taken; an exception leaves it unfinished and
      closed.  A sink that is closed without having finished throws again and again. */
  lemma FinishReports(dest: Content, calls: seq<Call>, f: Faults)
    ensures var s, n, threw := Run(dest, calls), Run(dest, calls + [Finish(f)]), Throws(Run(dest, calls), Finish(f));
            && (!threw <==> n.finished)
            && (!threw ==> n.dest == Some(s.taken) && (n.dest == Some(s.handed) <==> !AnyShort(dest, calls)))
            && n.buffer.None? && n.taken == s.taken
            && (s.buffer.None? ==> n == s)
  {
    RunConsistent(dest, calls);
    AfterConsistent(Run(dest, calls), dest, Finish(f));
    assert (calls + [Finish(f)])[..|calls|] == calls;
  }

  /** Which failures count: an open sink finishes exactly when the flush, the close and either
      the rename or, across devices, the copy succeed. */
  lemma FinishSucceedsIff(s: Sink, f: Faults)
    requires s.buffer.Some? && !s.finished
    ensures After(s, Finish(f)).finished <==>
            f.flushed && f.closed && !f.renaming.Refused? && (f.renaming.CrossDevice? ==> f.copying.Copied?)
  {
  }

  // ----- No file is left behind -----

  /** A move that fails cleans up at once when the removal succeeds. */
  lemma FailedMoveCleansUp(s: Sink, f: Faults)
    requires s.buffer.Some? && !s.finished && f.flushed && f.closed && f.removed
    ensures After(s, Finish(f)).temp == None
  {
  }

  /** Every removal in the run succeeds. */
  predicate Removes(call: Call) {
    match call
    case Write(_, _, _) => true
    case Finish(f) => f.removed
    case Destroy(_, removed) => removed
  }

  lemma {:induction false} FinishedLeavesNoTemp(dest: Content, calls: seq<Call>)
    requires forall i :: 0 <= i < |calls| ==> Removes(calls[i])
    ensures Run(dest, calls).finished ==> Run(dest, calls).temp == None
  {
    if calls != [] {
      assert Removes(calls[|calls| - 1]);
      FinishedLeavesNoTemp(dest, calls[..|calls| - 1]);
    }
  }

  /** When removals succeed the destruction leaves no temporary file, whatever else failed. */
  lemma DestructionLeavesNoTemp(dest: Content, calls: seq<Call>, spilled: nat)
    requires forall i :: 0 <= i < |calls| ==> Removes(calls[i])
    ensures var s := Run(dest, calls + [Destroy(spilled, true)]);
            s.temp == None && s.buffer == None
  {
    FinishedLeavesNoTemp(dest, calls);
    RunConsistent(dest, calls);
    assert (calls + [Destroy(spilled, true)])[..|calls|] == calls;
  }

  /** The one removal that is not tried again is the one behind a copy that went through. */
  lemma LeftoverIffCopyRemovalFails(dest: Content, calls: seq<Call>, f: Faults, spilled: nat)
    requires Run(dest, calls).buffer.Some?
    ensures Run(dest, (calls + [Finish(f)]) + [Destroy(spilled, true)]).temp != None <==>
            Publishes(f) && f.renaming.CrossDevice? && !f.removed
  {
    RunConsistent(dest, calls);
    assert (calls + [Finish(f)])[..|calls|] == calls;
    var all := (calls + [Finish(f)]) + [Destroy(spilled, true)];
    assert all[..|all| - 1] == calls + [Finish(f)];
  }

  // ----- The class -----

  class FileSink {
    /** The file at the destination and the one beside it. */
    var dest: Content
    var temp: Content
    /** The bytes that the open stream holds back; none when it is closed. */
    var file: Option<Bytes>
    var finished: bool
    ghost var handed: Bytes
    ghost var taken: Bytes
    ghost var torn: bool

    ghost function State(): Sink
      reads this
    {
      Sink(dest, temp, file, finished, handed, taken, torn)
    }

    /** Opening truncates what an earlier export left at the temporary path. */
    constructor (destination: Content)
      ensures State() == Opened(destination)
    {
      dest, temp, file, finished := destination, Some([]), Some([]), false;
      handed, taken, torn := [], [], false;
    }

    method Write(bytes: Bytes, took: nat, spilled: nat) returns (threw: bool)
      modifies this
      ensures State() == After(old(State()), Call.Write(bytes, took, spilled))
      ensures threw <==> Throws(old(State()), Call.Write(bytes, took, spilled))
    {
      if file == None {
        return true;
      }
      if bytes == [] {
        return false;
      }
      var written := Min(took, |bytes|);
      var held := file.value + bytes[..written];
      temp := Spill(temp, held, spilled);
      file := Some(held[Min(spilled, |held|)..]);
      handed, taken := handed + bytes, taken + bytes[..written];
      return written != |bytes|;
    }

    /** `fflush` or `fclose` gives the file what it can. */
    method Drain(upTo: nat)
      requires file.Some?
      modifies this`temp
      ensures temp == Spill(old(temp), file.value, upTo)
    {
      temp := Spill(temp, file.value, upTo);
    }

    method Remove(removed: bool)
      modifies this`temp
      ensures temp == Unlinked(old(temp), removed)
    {
      if removed {
        temp := None;
      }
    }

    method Finish(f: Faults) returns (threw: bool)
      modifies this
      ensures State() == After(old(State()), Call.Finish(f))
      ensures threw <==> Throws(old(State()), Call.Finish(f))
    {
      if finished {
        return false;
      }
      if file == None {
        return true;
      }
      if !f.flushed {
        Drain(f.spilled);
        file := None;
        return true;
      }
      Drain(|file.value|);
      file := None;
      if !f.closed {
        return true;
      }
      match f.renaming {
        case Moved =>
          dest, temp := temp, None;
        case Refused =>
          Remove(f.removed);
          return true;
        case CrossDevice =>
          if f.copying.Torn? {
            dest, torn := f.copying.rest, true;
            Remove(f.removed);
            return true;
          }
          dest := temp;
          Remove(f.removed);
      }
      finished := true;
      return false;
    }

    method Destroy(spilled: nat, removed: bool)
      modifies this
      ensures State() == After(old(State()), Call.Destroy(spilled, removed))
    {
      if finished {
        return;
      }
      if file.Some? {
        Drain(spilled);
        file := None;
      }
      Remove(removed);
    }
  }
}
