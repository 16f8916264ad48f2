/** A child's output, kept in memory up to a cap and copied whole into a log (`read_capped_tee` in
    crates/aide-mcp/src/exec.rs), and that log read back piecewise by a polling client
    (`read_exec_log` in crates/aide-mcp/src/server.rs). */
module ExecLog {
  import opened Common
  import opened Wrappers

  const DEFAULT_MAX_BYTES: nat := 65536

  // -------------------------------------------------------------- the reader

  /** One read of the pipe: some bytes, none at its end, or an error. */
  type Read = Option<seq<Byte>>

  predicate Ends(read: Read) {
    read.None? || read.value == []
  }

  /** All bytes before the pipe ends or fails. */
  function Output(chunks: seq<Read>): seq<Byte> {
    if chunks == [] || Ends(chunks[0]) then [] else chunks[0].value + Output(chunks[1..])
  }

  function Joined(pieces: seq<Read>): seq<Byte> {
    if pieces == [] then []
    else Joined(pieces[..|pieces| - 1]) + (if pieces[|pieces| - 1].Some? then pieces[|pieces| - 1].value else [])
  }

  /** The output is what the reads give, joined, up to the first that gives no bytes. */
  lemma {:induction false} OutputIs(chunks: seq<Read>) returns (n: nat)
    ensures n <= |chunks| && Output(chunks) == Joined(chunks[..n])
    ensures forall i :: 0 <= i < n ==> chunks[i].Some? && chunks[i].value != []
    ensures n < |chunks| ==> chunks[n] in {None, Some([])}
  {
    n := 0;
    if chunks != [] && !Ends(chunks[0]) {
      n := OutputIs(chunks[1..]);
      n := n + 1;
      assert chunks[..n] == [chunks[0]] + chunks[1..][..n - 1];
      JoinedFrom(chunks[0], chunks[1..][..n - 1]);
      assert forall i :: 1 <= i < n ==> chunks[i] == chunks[1..][i - 1];
    }
  }

  lemma {:induction false} JoinedFrom(first: Read, pieces: seq<Read>)
    requires first.Some?
    ensures Joined([first] + pieces) == first.value + Joined(pieces)
  {
    var all := [first] + pieces;
    if pieces == [] {
      assert all == [first] && [first][..0] == [];
    } else {
      assert all[..|all| - 1] == [first] + pieces[..|pieces| - 1];
      JoinedFrom(first, pieces[..|pieces| - 1]);
    }
  }

  /** `logWorks` says of each read whether copying it to the log works; the log is given up at the
      first that does not. */
  method ReadCappedTee(chunks: seq<Read>, cap: nat, hasLog: bool, logWorks: nat -> bool)
    returns (buf: seq<Byte>, truncated: bool, log: seq<Byte>)
    ensures buf == Output(chunks)[..Min(cap, |Output(chunks)|)]
    ensures truncated <==> |Output(chunks)| > cap
    ensures log <= Output(chunks)
    ensures hasLog && (forall i :: 0 <= i < |chunks| ==> logWorks(i)) ==> log == Output(chunks)
  {
    buf, truncated, log := [], false, [];
    var tee := hasLog;
    ghost var soFar: seq<Byte> := [];
    var i := 0;
    while i < |chunks| && !Ends(chunks[i])
      invariant 0 <= i <= |chunks|
      invariant Output(chunks) == soFar + Output(chunks[i..])
      invariant buf == soFar[..Min(cap, |soFar|)]
      invariant truncated <==> |soFar| > cap
      invariant log <= soFar
      invariant tee ==> log == soFar
      invariant hasLog && !tee ==> exists j :: 0 <= j < i && !logWorks(j)
    {
      var chunk := chunks[i].value;
      OneMoreRead(chunks, i, soFar);
      TakeMore(soFar, chunk, cap);
      var n := |chunk|;
      if |buf| < cap {
        var space := cap - |buf|;
        var take := Min(n, space);
        buf := buf + chunk[..take];
        if take < n {
          truncated := true;
        }
      } else {
        truncated := true;
      }
      if tee {
        if logWorks(i) {
          log := log + chunk;
        } else {
          tee := false;
        }
      }
      soFar := soFar + chunk;
      i := i + 1;
    }
  }

  lemma OneMoreRead(chunks: seq<Read>, i: nat, soFar: seq<Byte>)
    requires i < |chunks| && !Ends(chunks[i])
    ensures soFar + Output(chunks[i..]) == soFar + chunks[i].value + Output(chunks[i + 1..])
  {
    assert chunks[i..][0] == chunks[i] && chunks[i..][1..] == chunks[i + 1..];
  }

  lemma TakeMore(soFar: seq<Byte>, chunk: seq<Byte>, cap: nat)
    ensures var all, kept := soFar + chunk, soFar[..Min(cap, |soFar|)];
            all[..Min(cap, |all|)] ==
            if |soFar| < cap then kept + chunk[..Min(|chunk|, cap - |soFar|)] else kept
  {
  }

  // ------------------------------------------------------------- the polling

  datatype Reply = Reply(bytesRead: nat, eof: bool, content: seq<Byte>, nextOffset: nat, totalSize: nat)

  function Cap(maxBytes: Option<nat>): (cap: nat)
    ensures cap >= 1
    ensures maxBytes.None? ==> cap == 65536
    ensures maxBytes.Some? && maxBytes.value > 0 ==> cap == maxBytes.value
    ensures maxBytes == Some(0) ==> cap == 1
  {
    var wanted := if maxBytes.None? then DEFAULT_MAX_BYTES else maxBytes.value;
    if wanted < 1 then 1 else wanted
  }

  /** A read of a file may be short, but is empty only at its end. */
  predicate MayRead(file: seq<Byte>, offset: nat, cap: nat, n: nat) {
    if offset >= |file| then n == 0 else 0 < n <= Min(cap, |file| - offset)
  }

  /** One call: the log as it was when its size was asked for and, maybe longer, when it was read. */
  datatype Poll = Poll(atStat: seq<Byte>, atRead: seq<Byte>, maxBytes: Option<nat>, n: nat)

  predicate CanPoll(poll: Poll, offset: nat) {
    poll.atStat <= poll.atRead && MayRead(poll.atRead, offset, Cap(poll.maxBytes), poll.n)
  }

  function ReadExecLog(poll: Poll, offset: nat): Reply
    requires CanPoll(poll, offset)
  {
    var totalSize := |poll.atStat|;
    if offset > totalSize then Reply(0, true, [], totalSize, totalSize)
    else
      var nextOffset := offset + poll.n;
      Reply(poll.n, nextOffset >= totalSize, poll.atRead[offset..nextOffset], nextOffset, totalSize)
  }

  /** The parts of a reply agree: as many bytes as it says, from the offset on, no more than were asked for (65536
      if nothing was, one if it was none), and none only at the end of the log. Past the size that the log had, the
      reply is empty and points back to its end. */
  lemma {:induction false} ReplyIs(poll: Poll, offset: nat)
    requires CanPoll(poll, offset)
    ensures var reply := ReadExecLog(poll, offset);
            reply.totalSize == |poll.atStat| && reply.bytesRead == |reply.content| &&
            (reply.eof <==> reply.nextOffset >= |poll.atStat|)
    ensures var reply := ReadExecLog(poll, offset);
            if offset > |poll.atStat| then reply.content == [] && reply.nextOffset == |poll.atStat|
            else reply.content <= poll.atRead[offset..] && reply.nextOffset == offset + |reply.content| &&
                 (reply.content == [] <==> offset == |poll.atRead|)
    ensures var read := |ReadExecLog(poll, offset).content|;
            (poll.maxBytes.None? ==> read <= 65536) && (poll.maxBytes == Some(0) ==> read <= 1) &&
            (poll.maxBytes.Some? && poll.maxBytes.value > 0 ==> read <= poll.maxBytes.value)
  {
    if offset <= |poll.atStat| {
      assert poll.atRead[offset..][..poll.n] == poll.atRead[offset..offset + poll.n];
    }
  }

  /** A client that passes on `next_offset`, on a log that only grows up to `whole`. */
  predicate IsPolling(polls: seq<Poll>, offset: nat, written: nat, whole: seq<Byte>)
    decreases |polls|
  {
    polls == [] ||
    (var poll := polls[0];
     written <= |poll.atStat| && poll.atRead <= whole && CanPoll(poll, offset) &&
     IsPolling(polls[1..], ReadExecLog(poll, offset).nextOffset, |poll.atRead|, whole))
  }

  function Gathered(polls: seq<Poll>, offset: nat, written: nat, whole: seq<Byte>): (seq<Byte>, nat)
    requires IsPolling(polls, offset, written, whole)
    decreases |polls|
  {
    if polls == [] then ([], offset)
    else
      var reply := ReadExecLog(polls[0], offset);
      var (more, end) := Gathered(polls[1..], reply.nextOffset, |polls[0].atRead|, whole);
      (reply.content + more, end)
  }

  lemma OnePoll(poll: Poll, offset: nat, whole: seq<Byte>)
    requires CanPoll(poll, offset) && offset <= |poll.atStat| && poll.atRead <= whole
    ensures var reply := ReadExecLog(poll, offset);
            offset <= reply.nextOffset <= |poll.atRead| && reply.content == whole[offset..reply.nextOffset] &&
            (offset < |poll.atRead| ==> offset < reply.nextOffset) &&
            (reply.eof <==> |poll.atStat| <= reply.nextOffset)
  {
  }

  lemma JoinSlices<T>(s: seq<T>, a: nat, b: nat, c: nat)
    requires a <= b <= c <= |s|
    ensures s[a..b] + s[b..c] == s[a..c]
  {
  }

  /** However the calls fall between the writes and however short the reads, the pieces make up an
      exact stretch of the log, without gap or overlap. */
  lemma {:induction false} PollingGathers(polls: seq<Poll>, offset: nat, written: nat, whole: seq<Byte>)
    requires IsPolling(polls, offset, written, whole) && offset <= written <= |whole|
    ensures var (content, end) := Gathered(polls, offset, written, whole);
            offset <= end <= |whole| && content == whole[offset..end]
    decreases |polls|
  {
    if polls != [] {
      var reply := ReadExecLog(polls[0], offset);
      OnePoll(polls[0], offset, whole);
      PollingGathers(polls[1..], reply.nextOffset, |polls[0].atRead|, whole);
      var end := Gathered(polls[1..], reply.nextOffset, |polls[0].atRead|, whole).1;
      JoinSlices(whole, offset, reply.nextOffset, end);
    }
  }

  /** Once the log is complete every call but those at the end makes progress, so that no more calls
      than there are bytes left gather all of it. */
  lemma {:induction false} PollingFinishes(polls: seq<Poll>, offset: nat, whole: seq<Byte>)
    requires IsPolling(polls, offset, |whole|, whole) && offset <= |whole|
    requires |polls| >= |whole| - offset
    ensures Gathered(polls, offset, |whole|, whole) == (whole[offset..], |whole|)
    decreases |polls|
  {
    PollingGathers(polls, offset, |whole|, whole);
    if polls == [] {
      assert whole[offset..] == [];
    } else {
      var reply := ReadExecLog(polls[0], offset);
      OnePoll(polls[0], offset, whole);
      assert |polls[0].atRead| == |whole|;
      PollingFinishes(polls[1..], reply.nextOffset, whole);
      assert whole[offset..|whole|] == whole[offset..];
    }
  }

  /** `eof` on a complete log means that everything has been gathered, and is said when it has. */
  lemma EofIsEnd(poll: Poll, offset: nat, whole: seq<Byte>)
    requires CanPoll(poll, offset) && offset <= |whole| && poll.atStat == poll.atRead == whole
    ensures var reply := ReadExecLog(poll, offset);
            reply.eof <==> reply.nextOffset == |whole|
  {
    OnePoll(poll, offset, whole);
  }

  /** On a log still being written `eof` can come early: it speaks of the size at the call. */
  lemma EofCanBeEarly(first: Byte, second: Byte)
    ensures var poll := Poll([first], [first], None, 1);
            CanPoll(poll, 0) && poll.atRead < [first, second] && ReadExecLog(poll, 0).eof
  {
    assert [first, second][..1] == [first];
  }
}
