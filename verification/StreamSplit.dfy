/** Two pipes read under `poll`, and the incremental splitter that turns each stream into pieces. */
module StreamSplit {
  import opened Prelude
  import opened Numbers

  /** How one `read_to_end` on a non-blocking pipe comes back; the bytes before that stay in the buffer. */
  datatype ReadResult = EndOfFile | WouldBlock(count: nat) | ReadError(count: nat)

  /** What the operating system does in one turn of the poll loop. */
  datatype Round =
    | Interrupted
    | PollError
    | Ready(outReady: bool, outRead: ReadResult, errReady: bool, errRead: ReadResult)

  datatype Outcome = Finished | IoError | Waiting

  datatype Fd = OutFd | ErrFd
  datatype PollFd = PollFd(fd: Fd, revents: bool)

  function Taken(r: ReadResult, left: seq<Byte>): (n: nat)
    ensures n <= |left|
  {
    if r.EndOfFile? || r.count > |left| then |left| else r.count
  }

  // ---------------------------------------------------------------- splitting in instalments

  /** Nothing at all, or something that ends in a delimiter. */
  predicate Boundary(d: Byte, s: seq<Byte>) {
    s == [] || s[|s| - 1] == d
  }

  function Lines(d: Byte, s: seq<Byte>): seq<seq<Byte>> {
    NonEmpty(SplitOn(d, s))
  }

  lemma NoLines(d: Byte)
    ensures Lines(d, []) == []
  {
    var pieces := SplitOn(d, []);
    assert pieces == [[]] && pieces[0] == [];
    assert NonEmpty(pieces) == [] + NonEmpty(pieces[1..]);
  }

  /** A stream cut behind a delimiter may be split part by part. */
  lemma SplitInParts(d: Byte, s: seq<Byte>, more: seq<Byte>)
    requires Boundary(d, s)
    ensures Lines(d, s + more) == Lines(d, s) + Lines(d, more)
  {
    NoLines(d);
    if s == [] {
      assert s + more == more && [] + Lines(d, more) == Lines(d, more);
    } else {
      var body := s[..|s| - 1];
      assert s == body + [d] + [] && s + more == body + [d] + more;
      SplitAtDelimiter(d, body, []);
      SplitAtDelimiter(d, body, more);
      NonEmptyAppend(SplitOn(d, body), SplitOn(d, []));
      NonEmptyAppend(SplitOn(d, body), SplitOn(d, more));
    }
  }

  lemma LinesOfPrefix(d: Byte, s: seq<Byte>, all: seq<Byte>)
    requires Boundary(d, s) && s <= all
    ensures Lines(d, s) <= Lines(d, all)
  {
    SplitInParts(d, s, all[|s|..]);
    assert s + all[|s|..] == all;
  }

  /** What a callback has been given, against what it is due: all of it unless a callback has failed. */
  predicate Follows(given: seq<seq<Byte>>, due: seq<seq<Byte>>, failed: bool) {
    if failed then given <= due else given == due
  }

  predicate NoneBefore(fails: nat -> bool, n: int) {
    forall k: nat :: k < n ==> !fails(k)
  }

  lemma TakeOneMore<T>(before: seq<T>, pieces: seq<T>, k: nat)
    requires k < |pieces|
    ensures before + pieces[..k] + [pieces[k]] == before + pieces[..k + 1]
  {
  }

  lemma FirstPieces(before: seq<seq<Byte>>, pieces: seq<seq<Byte>>, k: nat)
    requires k <= |pieces|
    ensures Follows(NonEmpty(before + pieces[..k]), NonEmpty(before) + NonEmpty(pieces), k < |pieces|)
    ensures NonEmpty(before + pieces[..k]) <= NonEmpty(before) + NonEmpty(pieces)
  {
    NonEmptyAppend(before, pieces[..k]);
    NonEmptyAppend(pieces[..k], pieces[k..]);
    assert pieces == pieces[..k] + pieces[k..];
    assert k == |pieces| ==> pieces[..k] == pieces;
  }

  /**
   * One stream holding `all`: `drained` has been handed to the splitter, `buffer` is read but waits for its
   * delimiter, `left` is unread. Until the stream is done the splitter stops behind a delimiter.
   */
  predicate Placed(d: Byte, all: seq<Byte>, drained: seq<Byte>, buffer: seq<Byte>, left: seq<Byte>, done: bool) {
    && all == drained + buffer + left
    && d !in buffer
    && (if done then buffer == [] && left == [] else Boundary(d, drained))
  }

  /** The callback has been given the non-empty pieces of what is drained, or a prefix of them after a failure. */
  predicate Given(d: Byte, drained: seq<Byte>, calls: seq<seq<Byte>>, failed: bool) {
    Follows(NonEmpty(calls), Lines(d, drained), failed)
  }

  lemma GivenIsPrefix(d: Byte, all: seq<Byte>, drained: seq<Byte>, buffer: seq<Byte>, left: seq<Byte>, done: bool,
                      calls: seq<seq<Byte>>, failed: bool)
    requires Placed(d, all, drained, buffer, left, done) && Given(d, drained, calls, failed)
    ensures NonEmpty(calls) <= Lines(d, all)
    ensures done ==> Given(d, all, calls, failed)
  {
    if done {
      assert drained == all;
    } else {
      assert drained <= all;
      LinesOfPrefix(d, drained, all);
    }
  }

  lemma GivenMore(d: Byte, drained: seq<Byte>, consumed: seq<Byte>, calls: seq<seq<Byte>>, failed: bool,
                  calls': seq<seq<Byte>>, failed': bool)
    requires Boundary(d, drained) || consumed == []
    requires Given(d, drained, calls, failed)
    requires if failed then failed' && calls' == calls
             else Follows(NonEmpty(calls'), NonEmpty(calls) + Lines(d, consumed), failed')
    ensures Given(d, drained + consumed, calls', failed')
  {
    if consumed == [] {
      NoLines(d);
      assert drained + consumed == drained && NonEmpty(calls) + [] == NonEmpty(calls);
    } else {
      SplitInParts(d, drained, consumed);
    }
  }

  lemma PlacedMore(d: Byte, all: seq<Byte>, drained: seq<Byte>, buffer: seq<Byte>, left: seq<Byte>, done: bool,
                   n: nat, consumed: seq<Byte>, rest: seq<Byte>, done': bool)
    requires Placed(d, all, drained, buffer, left, done)
    requires n <= |left| && (done ==> done') && (done' ==> n == |left| && rest == [])
    requires buffer + left[..n] == consumed + rest && d !in rest && (done' || Boundary(d, consumed))
    ensures Placed(d, all, drained + consumed, rest, left[n..], done')
  {
    assert left == left[..n] + left[n..];
    assert all == drained + (buffer + left[..n]) + left[n..];
    assert all == (drained + consumed) + rest + left[n..];
  }

  /** Some round reports the pipe ready and its read comes back with end of file. */
  predicate Ends(rounds: seq<Round>, stdout: bool) {
    exists r :: r in rounds && EndsIn(r, stdout)
  }

  lemma EndsSnoc(rounds: seq<Round>, i: nat)
    requires i < |rounds|
    ensures forall b :: Ends(rounds[..i + 1], b) <==> Ends(rounds[..i], b) || EndsIn(rounds[i], b)
  {
    assert rounds[..i + 1] == rounds[..i] + [rounds[i]];
  }

  lemma EndsEarly(rounds: seq<Round>, i: nat)
    requires i <= |rounds|
    ensures forall b :: Ends(rounds[..i], b) ==> Ends(rounds, b)
    ensures i == |rounds| ==> rounds[..i] == rounds
  {
  }

  predicate EndsIn(r: Round, stdout: bool) {
    r.Ready? && if stdout then r.outReady && r.outRead.EndOfFile? else r.errReady && r.errRead.EndOfFile?
  }

  /** A pipe that is not finished is ready and cannot be read. */
  predicate ReadFails(r: Round, outDone: bool, errDone: bool) {
    r.Ready? && ((!outDone && r.outReady && r.outRead.ReadError?) || (!errDone && r.errReady && r.errRead.ReadError?))
  }

  /** The i-th round is reached, as a pipe is still open before it, and fails in its poll or in a read. */
  predicate BreaksAt(rounds: seq<Round>, i: nat) {
    && i < |rounds| && !(Ends(rounds[..i], true) && Ends(rounds[..i], false))
    && (rounds[i].PollError? || ReadFails(rounds[i], Ends(rounds[..i], true), Ends(rounds[..i], false)))
  }

  lemma BreaksIff(rounds: seq<Round>, i: nat, outDone: bool, errDone: bool)
    requires i < |rounds| && outDone == Ends(rounds[..i], true) && errDone == Ends(rounds[..i], false)
    requires !outDone || !errDone
    ensures BreaksAt(rounds, i) <==> rounds[i].PollError? || ReadFails(rounds[i], outDone, errDone)
  {
  }

  predicate NoBreakBefore(rounds: seq<Round>, i: nat) {
    forall k: nat :: k < i ==> !BreaksAt(rounds, k)
  }

  lemma NoBreakMore(rounds: seq<Round>, i: nat)
    requires NoBreakBefore(rounds, i)
    ensures NoBreakBefore(rounds, i + 1) <==> !BreaksAt(rounds, i)
  {
  }

  lemma NoBreakAtAll(rounds: seq<Round>, i: nat)
    requires i <= |rounds| && NoBreakBefore(rounds, i)
    requires i == |rounds| || (Ends(rounds[..i], true) && Ends(rounds[..i], false))
    ensures forall k: nat :: !BreaksAt(rounds, k)
  {
    forall k: nat | i <= k < |rounds| ensures !BreaksAt(rounds, k) {
      NoBreakBehind(rounds, i, k);
    }
  }

  lemma NoBreakBehind(rounds: seq<Round>, i: nat, k: nat)
    requires i <= k <= |rounds| && Ends(rounds[..i], true) && Ends(rounds[..i], false)
    ensures !BreaksAt(rounds, k)
  {
    if k < |rounds| {
      assert rounds[..k][..i] == rounds[..i];
      EndsEarly(rounds[..k], i);
    }
  }

  // ---------------------------------------------------------------- what the lines of a stream are

  /** Lines, each with its delimiter. */
  function Text(d: Byte, lines: seq<seq<Byte>>): seq<Byte> {
    if lines == [] then [] else lines[0] + [d] + Text(d, lines[1..])
  }

  predicate AreLines(d: Byte, lines: seq<seq<Byte>>) {
    forall i :: 0 <= i < |lines| ==> lines[i] != [] && d !in lines[i]
  }

  /** The lines of a text are the ones it is made of, and the rest behind the last delimiter if there is any. */
  lemma {:induction false} LinesOfText(d: Byte, lines: seq<seq<Byte>>, rest: seq<Byte>)
    requires AreLines(d, lines) && d !in rest
    ensures Lines(d, Text(d, lines) + rest) == lines + if rest == [] then [] else [rest]
    decreases |lines|
  {
    if lines == [] {
      SplitFree(d, rest);
      NonEmptyIs([], rest, []);
      assert Text(d, lines) + rest == rest && [] + [rest] + [] == [rest];
      PrependNothing(if rest == [] then [] else [rest]);
    } else {
      var first, more := lines[0], Text(d, lines[1..]) + rest;
      assert Text(d, lines) + rest == first + [d] + more;
      SplitAtDelimiter(d, first, more);
      SplitFree(d, first);
      NonEmptyIs([], first, SplitOn(d, more));
      assert [] + [first] + SplitOn(d, more) == [first] + SplitOn(d, more);
      LinesOfText(d, lines[1..], rest);
      PrependNothing([first]);
      assert lines == [first] + lines[1..];
    }
  }

  // ---------------------------------------------------------------- the splitter

  /** Index behind the last delimiter at or after `pos`, as a backwards search. */
  method LastAfter(d: Byte, data: seq<Byte>, pos: nat) returns (end: Option<nat>)
    requires pos <= |data|
    ensures end.None? ==> d !in data[pos..]
    ensures end.Some? ==> pos < end.value <= |data| && data[end.value - 1] == d && d !in data[end.value..]
  {
    var i := |data|;
    while i > pos
      invariant pos <= i <= |data|
      invariant d !in data[i..]
    {
      if data[i - 1] == d {
        return Some(i);
      }
      assert data[i - 1..] == [data[i - 1]] + data[i..];
      i := i - 1;
    }
    end := None;
  }

  /** Where to cut the buffer, and the next resume position; nothing is cut when no delimiter is there yet. */
  method CutIndex(d: Byte, data: seq<Byte>, pos: nat, eof: bool) returns (idx: nat, newPos: nat)
    requires pos <= |data| && d !in data[..pos]
    ensures idx <= |data| && newPos <= |data| - idx && d !in data[idx..]
    ensures if eof then idx == |data| else Boundary(d, data[..idx])
    ensures newPos == if eof || d in data then 0 else |data|
  {
    if eof {
      return |data|, 0;
    }
    var last := LastAfter(d, data, pos);
    if last.None? {
      assert data == data[..pos] + data[pos..];
      return 0, |data|;
    }
    return last.value, 0;
  }

  /** The callback loop: stops at the first failure, at once if there has been one. */
  method Deliver(d: Byte, fails: nat -> bool, failed: bool, calls: seq<seq<Byte>>, others: nat,
                 ghost drained: seq<Byte>, consumed: seq<Byte>)
    returns (calls': seq<seq<Byte>>, failed': bool)
    requires CallsOk(fails, |calls| + others, failed)
    requires Given(d, drained, calls, failed) && (Boundary(d, drained) || consumed == [])
    ensures CallsOk(fails, |calls'| + others, failed') && (failed ==> failed')
    ensures Given(d, drained + consumed, calls', failed')
  {
    var pieces := SplitOn(d, consumed);
    var k := 0;
    calls', failed' := calls, failed;
    assert calls + pieces[..0] == calls;
    while k < |pieces|
      invariant k <= |pieces| && CallsOk(fails, |calls'| + others, failed') && (failed ==> failed')
      invariant calls' == if failed then calls else calls + pieces[..k]
    {
      if failed' {
        break;
      }
      TakeOneMore(calls, pieces, k);
      failed' := fails(|calls'| + others);
      calls' := calls' + [pieces[k]];
      k := k + 1;
    }
    FirstPieces(calls, pieces, k);
    GivenMore(d, drained, consumed, calls, failed, calls', failed');
  }

  /**
   * The body of the closure for the stream it is called for. It drains the buffer behind its last delimiter,
   * or wholly at end of file, and gives the drained pieces to the callback until a callback fails.
   */
  method Feed(d: Byte, fails: nat -> bool, failed: bool, calls: seq<seq<Byte>>, others: nat, ghost drained: seq<Byte>,
              data: seq<Byte>, pos: nat, eof: bool)
    returns (rest: seq<Byte>, newPos: nat, calls': seq<seq<Byte>>, failed': bool, ghost consumed: seq<Byte>)
    requires pos <= |data| && d !in data[..pos]
    requires CallsOk(fails, |calls| + others, failed)
    requires Given(d, drained, calls, failed) && (Boundary(d, drained) || data == [])
    ensures data == consumed + rest && d !in rest && newPos <= |rest|
    ensures if eof then rest == [] else Boundary(d, consumed)
    ensures CallsOk(fails, |calls'| + others, failed') && (failed ==> failed')
    ensures Given(d, drained + consumed, calls', failed')
  {
    var idx;
    idx, newPos := CutIndex(d, data, pos, eof);
    rest, calls', failed', consumed := data[idx..], calls, failed, data[..idx];
    if idx == 0 && !eof {
      assert drained + consumed == drained;
    } else {
      calls', failed' := Deliver(d, fails, failed, calls, others, drained, data[..idx]);
    }
  }

  /** No call but possibly the last of `n` has failed, and the flag tells whether that one has. */
  predicate CallsOk(fails: nat -> bool, n: nat, failed: bool) {
    failed == (n > 0 && fails(n - 1)) && NoneBefore(fails, n - 1)
  }

  /** The polled slots are exactly the unfinished pipes, and `errfd` is the slot of an unfinished stderr. */
  ghost predicate Watching(fds: array<PollFd>, nfds: int, errfd: int, outDone: bool, errDone: bool)
    reads fds
  {
    && fds.Length == 2 && 0 <= errfd <= 1
    && nfds == (if outDone then 0 else 1) + (if errDone then 0 else 1)
    && (!outDone ==> fds[0].fd == OutFd)
    && (!errDone ==> errfd < nfds && fds[errfd].fd == ErrFd)
  }

  /** `poll` on the first `nfds` slots: each is told whether its own pipe has something. */
  method Poll(fds: array<PollFd>, nfds: int, ghost errfd: int, ghost outDone: bool, ghost errDone: bool,
              outReady: bool, errReady: bool)
    requires Watching(fds, nfds, errfd, outDone, errDone)
    modifies fds
    ensures Watching(fds, nfds, errfd, outDone, errDone)
    ensures !outDone ==> fds[0].revents == outReady
    ensures !errDone ==> fds[errfd].revents == errReady
  {
    var i := 0;
    ghost var was := fds[..];
    while i < nfds
      invariant 0 <= i <= nfds <= 2
      invariant forall k :: 0 <= k < 2 ==> fds[k].fd == was[k].fd
      invariant forall k :: 0 <= k < i ==> fds[k].revents == if fds[k].fd.OutFd? then outReady else errReady
    {
      fds[i] := fds[i].(revents := if fds[i].fd.OutFd? then outReady else errReady);
      i := i + 1;
    }
  }

  /** What `read2` and the closure hold for one pipe; `left` is what is still inside it. */
  datatype Stream = Stream(left: seq<Byte>, buffer: seq<Byte>, pos: nat, done: bool, calls: seq<seq<Byte>>)

  /** One stream between two turns, when the pipe held `all` at first. */
  ghost predicate StreamOk(d: Byte, all: seq<Byte>, s: Stream, drained: seq<Byte>, failed: bool) {
    && s.pos <= |s.buffer|
    && Placed(d, all, drained, s.buffer, s.left, s.done)
    && Given(d, drained, s.calls, failed)
  }

  /** One stream's turn: read what is there if the pipe is ready, then hand the buffer to the closure. */
  method Turn(d: Byte, fails: nat -> bool, failed: bool, others: nat, ghost all: seq<Byte>, s: Stream,
              ghost drained: seq<Byte>, ready: bool, r: ReadResult)
    returns (ok: bool, s': Stream, failed': bool, ghost drained': seq<Byte>)
    requires CallsOk(fails, |s.calls| + others, failed) && StreamOk(d, all, s, drained, failed)
    ensures ok == !(!s.done && ready && r.ReadError?)
    ensures ok ==> s'.done == (s.done || (ready && r.EndOfFile?))
    ensures ok && (s.done || !ready) ==> s'.left == s.left
    ensures ok && !s.done && ready && r.WouldBlock? ==>
              s'.left == s.left[if r.count < |s.left| then r.count else |s.left|..]
    ensures CallsOk(fails, |s'.calls| + others, failed') && (failed ==> failed')
    ensures if ok then StreamOk(d, all, s', drained', failed') else s'.calls == s.calls
  {
    ok, s', failed', drained' := true, s, failed, drained;
    ghost var n := 0;
    if !s.done && ready {
      n := Taken(r, s.left);
      var count := Taken(r, s.left);
      s' := s.(buffer := s.buffer + s.left[..count], left := s.left[count..], done := r.EndOfFile?);
      if r.ReadError? {
        return false, s', failed', drained';
      }
    }
    assert s'.buffer == s.buffer + s.left[..n] && s'.left == s.left[n..];
    assert s'.buffer[..s.pos] == s.buffer[..s.pos];
    var rest, newPos, calls;
    ghost var consumed;
    rest, newPos, calls, failed', consumed :=
      Feed(d, fails, failed, s.calls, others, drained, s'.buffer, s.pos, s'.done);
    PlacedMore(d, all, drained, s.buffer, s.left, s.done, n, consumed, rest, s'.done);
    s' := s'.(buffer := rest, pos := newPos, calls := calls);
    drained' := drained + consumed;
  }

  lemma Prefixes(d: Byte, all: seq<Byte>, s: Stream, drained: seq<Byte>, failed: bool)
    requires StreamOk(d, all, s, drained, failed)
    ensures NonEmpty(s.calls) <= Lines(d, all) && (s.done ==> Given(d, all, s.calls, failed))
  {
    GivenIsPrefix(d, all, drained, s.buffer, s.left, s.done, s.calls, failed);
  }

  /** Both streams between two turns. */
  ghost predicate Reading(d: Byte, fails: nat -> bool, failed: bool, outData: seq<Byte>, out: Stream,
                          outDrained: seq<Byte>, errData: seq<Byte>, err: Stream, errDrained: seq<Byte>) {
    && CallsOk(fails, |out.calls| + |err.calls|, failed)
    && StreamOk(d, outData, out, outDrained, failed)
    && StreamOk(d, errData, err, errDrained, failed)
  }

  /** The callbacks have got no piece that their streams do not have there. */
  predicate Prefixed(d: Byte, fails: nat -> bool, outData: seq<Byte>, out: Stream, errData: seq<Byte>, err: Stream) {
    && NonEmpty(out.calls) <= Lines(d, outData) && NonEmpty(err.calls) <= Lines(d, errData)
    && NoneBefore(fails, |out.calls| + |err.calls| - 1)
  }

  lemma ReadingIsPrefixed(d: Byte, fails: nat -> bool, failed: bool, outData: seq<Byte>, out: Stream,
                          outDrained: seq<Byte>, errData: seq<Byte>, err: Stream, errDrained: seq<Byte>)
    requires Reading(d, fails, failed, outData, out, outDrained, errData, err, errDrained)
    ensures Prefixed(d, fails, outData, out, errData, err)
    ensures out.done && err.done && !failed ==>
              NonEmpty(out.calls) == Lines(d, outData) && NonEmpty(err.calls) == Lines(d, errData)
  {
    Prefixes(d, outData, out, outDrained, failed);
    Prefixes(d, errData, err, errDrained, failed);
  }

  /** The stderr half of a turn. */
  method ErrTurn(d: Byte, fails: nat -> bool, failed: bool, ghost outData: seq<Byte>, out: Stream,
                 ghost outDrained: seq<Byte>, ghost errData: seq<Byte>, err: Stream, ghost errDrained: seq<Byte>,
                 ready: bool, r: ReadResult)
    returns (ok: bool, failed': bool, err': Stream, ghost errDrained': seq<Byte>)
    requires Reading(d, fails, failed, outData, out, outDrained, errData, err, errDrained)
    ensures ok == !(!err.done && ready && r.ReadError?)
    ensures ok ==> Reading(d, fails, failed', outData, out, outDrained, errData, err', errDrained')
    ensures ok ==> err'.done == (err.done || (ready && r.EndOfFile?))
    ensures Prefixed(d, fails, outData, out, errData, err')
  {
    ReadingIsPrefixed(d, fails, failed, outData, out, outDrained, errData, err, errDrained);
    ok, err', failed', errDrained' := Turn(d, fails, failed, |out.calls|, errData, err, errDrained, ready, r);
    if ok {
      ReadingIsPrefixed(d, fails, failed', outData, out, outDrained, errData, err', errDrained');
    }
  }

  /** The stdout half. */
  method OutTurn(d: Byte, fails: nat -> bool, failed: bool, ghost outData: seq<Byte>, out: Stream,
                 ghost outDrained: seq<Byte>, ghost errData: seq<Byte>, err: Stream, ghost errDrained: seq<Byte>,
                 ready: bool, r: ReadResult)
    returns (ok: bool, failed': bool, out': Stream, ghost outDrained': seq<Byte>)
    requires Reading(d, fails, failed, outData, out, outDrained, errData, err, errDrained)
    ensures ok == !(!out.done && ready && r.ReadError?)
    ensures ok ==> Reading(d, fails, failed', outData, out', outDrained', errData, err, errDrained)
    ensures ok ==> out'.done == (out.done || (ready && r.EndOfFile?))
    ensures Prefixed(d, fails, outData, out', errData, err)
  {
    ReadingIsPrefixed(d, fails, failed, outData, out, outDrained, errData, err, errDrained);
    ok, out', failed', outDrained' := Turn(d, fails, failed, |err.calls|, outData, out, outDrained, ready, r);
    if ok {
      ReadingIsPrefixed(d, fails, failed', outData, out', outDrained', errData, err, errDrained);
    }
  }

  /** One turn of the loop on both pipes, stderr first; when stdout ends its slot is handed to stderr. */
  method ReadReady(d: Byte, fails: nat -> bool, failed: bool, out: Stream, err: Stream, fds: array<PollFd>,
                   nfds: int, errfd: int, round: Round, ghost outData: seq<Byte>, ghost errData: seq<Byte>,
                   ghost outDrained: seq<Byte>, ghost errDrained: seq<Byte>)
    returns (ok: bool, failed': bool, out': Stream, err': Stream, nfds': int, errfd': int,
             ghost outDrained': seq<Byte>, ghost errDrained': seq<Byte>)
    requires round.Ready? && Watching(fds, nfds, errfd, out.done, err.done)
    requires Reading(d, fails, failed, outData, out, outDrained, errData, err, errDrained)
    modifies fds
    ensures ok ==> Watching(fds, nfds', errfd', out'.done, err'.done)
    ensures ok ==> Reading(d, fails, failed', outData, out', outDrained', errData, err', errDrained')
    ensures ok ==> out'.done == (out.done || EndsIn(round, true)) && err'.done == (err.done || EndsIn(round, false))
    ensures ok == !ReadFails(round, out.done, err.done)
    ensures Prefixed(d, fails, outData, out', errData, err')
  {
    out', outDrained', nfds', errfd' := out, outDrained, nfds, errfd;
    Poll(fds, nfds, errfd, out.done, err.done, round.outReady, round.errReady);
    ok, failed', err', errDrained' := ErrTurn(d, fails, failed, outData, out, outDrained, errData, err, errDrained,
                                              !err.done && fds[errfd].revents, round.errRead);
    if !ok {
      return;
    }
    if err'.done && !err.done {
      nfds' := nfds' - 1;
    }
    ok, failed', out', outDrained' := OutTurn(d, fails, failed', outData, out, outDrained, errData, err', errDrained',
                                              !out.done && fds[0].revents, round.outRead);
    if !ok {
      return;
    }
    if out'.done && !out.done {
      fds[0] := fds[0].(fd := ErrFd);
      errfd' := 0;
      nfds' := nfds' - 1;
    }
  }

  /**
   * `run_cmd_split_streamed` over the given rounds; `Waiting` when they run out while a pipe is still open.
   * No callback gets a piece that its stream does not have there, and once the loop ends normally with no
   * callback failed, each has been given exactly the pieces of its whole stream.
   */
  method RunSplit(d: Byte, outData: seq<Byte>, errData: seq<Byte>, rounds: seq<Round>, fails: nat -> bool)
    returns (outcome: Outcome, outCalls: seq<seq<Byte>>, errCalls: seq<seq<Byte>>)
    ensures NonEmpty(outCalls) <= Lines(d, outData) && NonEmpty(errCalls) <= Lines(d, errData)
    ensures NoneBefore(fails, |outCalls| + |errCalls| - 1)
    ensures outcome == Finished && NoneBefore(fails, |outCalls| + |errCalls|) ==>
              NonEmpty(outCalls) == Lines(d, outData) && NonEmpty(errCalls) == Lines(d, errData)
    ensures outcome == Finished ==> Ends(rounds, true) && Ends(rounds, false)
    ensures outcome == Waiting ==> !(Ends(rounds, true) && Ends(rounds, false))
    ensures outcome == IoError <==> exists i: nat :: BreaksAt(rounds, i)
  {
    var out, err := Stream(outData, [], 0, false, []), Stream(errData, [], 0, false, []);
    ghost var outDrained, errDrained: seq<Byte> := [], [];
    var callbackError := false;
    var fds := new PollFd[2](i => PollFd(if i == 0 then OutFd else ErrFd, false));
    var nfds, errfd, i := 2, 1, 0;
    NoLines(d);
    while nfds > 0 && i < |rounds|
      invariant i <= |rounds| && fresh(fds)
      invariant Watching(fds, nfds, errfd, out.done, err.done)
      invariant Reading(d, fails, callbackError, outData, out, outDrained, errData, err, errDrained)
      invariant Prefixed(d, fails, outData, out, errData, err)
      invariant out.done == Ends(rounds[..i], true) && err.done == Ends(rounds[..i], false)
      invariant NoBreakBefore(rounds, i)
    {
      var round := rounds[i];
      EndsSnoc(rounds, i);
      BreaksIff(rounds, i, out.done, err.done);
      NoBreakMore(rounds, i);
      i := i + 1;
      if round.Interrupted? {
        continue;
      }
      if round.PollError? {
        return IoError, out.calls, err.calls;
      }
      var ok;
      ok, callbackError, out, err, nfds, errfd, outDrained, errDrained :=
        ReadReady(d, fails, callbackError, out, err, fds, nfds, errfd, round, outData, errData, outDrained, errDrained);
      if !ok {
        return IoError, out.calls, err.calls;
      }
    }
    NoBreakAtAll(rounds, i);
    ReadingIsPrefixed(d, fails, callbackError, outData, out, outDrained, errData, err, errDrained);
    EndsEarly(rounds, i);
    return if nfds == 0 then Finished else Waiting, out.calls, err.calls;
  }
}
