/** The reader that joins a container's stdout and stderr channels into one byte stream. */
module LogReader {
  import opened Types

  type Line = seq<bv8>

  const NEWLINE: bv8 := 10

  /** A channel of log lines, seen from its receiving end: the lines that receives will still
      yield, in order, before a receive reports that the channel is closed. */
  class Channel {
    var lines: seq<Line>
  }

  /** Which case of the select fires; an error channel may yield a nil error. */
  datatype Pick = FromStdout | FromStderr | FromErr(error: Option<string>)

  datatype ReadError = NoError | EOF | Failed(message: string)

  /** The reader's fields; None is a nil channel. */
  datatype Reader = Reader(stdout: Option<seq<Line>>, stderr: Option<seq<Line>>, buffer: seq<bv8>, closed: bool)

  /** A Read that has to wait on the select returns only through a channel that is not nil. */
  predicate Enabled(r: Reader, pick: Pick) {
    r.closed || r.buffer != [] ||
    match pick
    case FromStdout => r.stdout.Some?
    case FromStderr => r.stderr.Some?
    case FromErr(_) => true
  }

  /** One receive from a non-nil channel: what is left of it, and the bytes it appends. */
  function Receive(lines: seq<Line>): (Option<seq<Line>>, seq<bv8>) {
    if lines == [] then (None, []) else (Some(lines[1..]), lines[0] + [NEWLINE])
  }

  function Select(r: Reader, pick: Pick): Reader
    requires !r.closed && r.buffer == [] && Enabled(r, pick)
  {
    match pick
    case FromStdout =>
      var (rest, bytes) := Receive(r.stdout.value);
      r.(stdout := rest, buffer := bytes)
    case FromStderr =>
      var (rest, bytes) := Receive(r.stderr.value);
      r.(stderr := rest, buffer := bytes)
    case FromErr(_) => r
  }

  /** The reader before it copies: an empty buffer is refilled by one select, after which two
      nil channels mark the reader closed. */
  function Refill(r: Reader, pick: Pick): Reader
    requires !r.closed && Enabled(r, pick)
  {
    if r.buffer != [] then r
    else
      var s := Select(r, pick);
      if s.stdout.None? && s.stderr.None? then s.(closed := true) else s
  }

  function CopyOut(r: Reader, room: nat): (c: (Reader, seq<bv8>, ReadError))
    ensures c.0 == r.(buffer := c.0.buffer) && r.buffer == c.1 + c.0.buffer
  {
    var n := if room < |r.buffer| then room else |r.buffer|;
    (r.(buffer := r.buffer[n..]), r.buffer[..n], NoError)
  }

  /** One Read into a slice of `room` bytes: the new fields, the bytes copied, the error. */
  function ReadStep(r: Reader, room: nat, pick: Pick): (Reader, seq<bv8>, ReadError)
    requires Enabled(r, pick)
  {
    if r.closed then
      (r, [], EOF)
    else if r.buffer == [] && pick.FromErr? && pick.error.Some? then
      (r, [], Failed(pick.error.value))
    else
      var s := Refill(r, pick);
      if s.closed && s.buffer == [] then (s, [], EOF) else CopyOut(s, room)
  }

  /** Go's built-in copy: as many leading bytes of `src` as fit. */
  method Copy(p: array<bv8>, src: seq<bv8>) returns (n: nat)
    modifies p
    ensures n == if p.Length < |src| then p.Length else |src|
    ensures p[..n] == src[..n]
    ensures p[n..] == old(p[..])[n..]
  {
    n := if p.Length < |src| then p.Length else |src|;
    forall i | 0 <= i < n {
      p[i] := src[i];
    }
  }

  class CombinedLogReader {
    var stdout: Channel?
    var stderr: Channel?
    var buffer: seq<bv8>
    var closed: bool

    ghost predicate Valid()
      reads this
    {
      stdout != null ==> stdout != stderr
    }

    ghost function View(): Reader
      reads this, stdout, stderr
    {
      Reader(
        if stdout == null then None else Some(stdout.lines),
        if stderr == null then None else Some(stderr.lines),
        buffer, closed)
    }

    constructor (stdout: Channel, stderr: Channel)
      requires stdout != stderr
      ensures Valid()
      ensures View() == Reader(Some(stdout.lines), Some(stderr.lines), [], false)
    {
      this.stdout, this.stderr, buffer, closed := stdout, stderr, [], false;
    }

    method Read(p: array<bv8>, pick: Pick) returns (n: nat, err: ReadError)
      requires Valid()
      requires Enabled(View(), pick)
      modifies this, stdout, stderr, p
      ensures Valid()
      ensures n <= p.Length
      ensures (View(), p[..n], err) == ReadStep(old(View()), p.Length, pick)
      ensures p[n..] == old(p[..])[n..]
    {
      if closed {
        return 0, EOF;
      }
      if |buffer| == 0 {
        match pick {
          case FromStdout =>
            if stdout.lines == [] {
              stdout := null;
            } else {
              buffer := stdout.lines[0] + [NEWLINE];
              stdout.lines := stdout.lines[1..];
            }
          case FromStderr =>
            if stderr.lines == [] {
              stderr := null;
            } else {
              buffer := stderr.lines[0] + [NEWLINE];
              stderr.lines := stderr.lines[1..];
            }
          case FromErr(error) =>
            if error.Some? {
              return 0, Failed(error.value);
            }
        }
        if stdout == null && stderr == null {
          closed := true;
          if |buffer| == 0 {
            return 0, EOF;
          }
        }
      }
      ghost var s := View();
      assert s == Refill(old(View()), pick);
      n := Copy(p, buffer);
      buffer := buffer[n..];
      return n, NoError;
    }

    method Close()
      modifies this
      ensures View() == old(View()).(closed := true)
    {
      closed := true;
    }
  }

  // ------------------------------------------------------------------- runs

  datatype Call = Call(room: nat, pick: Pick)

  predicate Possible(r: Reader, calls: seq<Call>)
    decreases calls
  {
    calls != [] ==>
      && Enabled(r, calls[0].pick)
      && Possible(ReadStep(r, calls[0].room, calls[0].pick).0, calls[1..])
  }

  function After(r: Reader, calls: seq<Call>): Reader
    requires Possible(r, calls)
    decreases calls
  {
    if calls == [] then r else After(ReadStep(r, calls[0].room, calls[0].pick).0, calls[1..])
  }

  /** The concatenation of all bytes that the calls returned. */
  function Output(r: Reader, calls: seq<Call>): seq<bv8>
    requires Possible(r, calls)
    decreases calls
  {
    if calls == [] then []
    else
      var (next, bytes, _) := ReadStep(r, calls[0].room, calls[0].pick);
      bytes + Output(next, calls[1..])
  }

  /** What holds of a reader that was never closed by its caller: it is marked closed exactly
      when both channels have been seen closed, and never with bytes still buffered. */
  ghost predicate Live(r: Reader) {
    && (r.closed <==> r.stdout.None? && r.stderr.None?)
    && (r.closed ==> r.buffer == [])
  }

  lemma StepKeepsLive(r: Reader, room: nat, pick: Pick)
    requires Live(r) && Enabled(r, pick)
    ensures var (next, bytes, err) := ReadStep(r, room, pick);
            Live(next) && (err == EOF <==> next.closed) && (err == EOF ==> bytes == [])
  {
  }

  // -------------------------------------------------------------- exactness

  function Rest(channel: Option<seq<Line>>): seq<Line> {
    if channel.Some? then channel.value else []
  }

  function Flatten(lines: seq<Line>): seq<bv8> {
    if lines == [] then [] else lines[0] + [NEWLINE] + Flatten(lines[1..])
  }

  /** `m` interleaves all of `a` and all of `b`, keeping the order of each. */
  ghost predicate IsMerge(m: seq<Line>, a: seq<Line>, b: seq<Line>) {
    if m == [] then a == [] && b == []
    else
      || (a != [] && m[0] == a[0] && IsMerge(m[1..], a[1..], b))
      || (b != [] && m[0] == b[0] && IsMerge(m[1..], a, b[1..]))
  }

  /** `m` interleaves what the calls received: a prefix `a` of stdout and a prefix `b` of
      stderr. What was buffered plus these lines is what came out plus what is buffered now. */
  ghost predicate Conserved(r: Reader, next: Reader, out: seq<bv8>, m: seq<Line>, a: seq<Line>, b: seq<Line>) {
    && IsMerge(m, a, b)
    && Rest(r.stdout) == a + Rest(next.stdout)
    && Rest(r.stderr) == b + Rest(next.stderr)
    && r.buffer + Flatten(m) == out + next.buffer
  }

  /** The line, if any, that a Read receives from stdout or from stderr. */
  function Received(r: Reader, pick: Pick): (seq<Line>, seq<Line>) {
    if r.closed || r.buffer != [] || pick.FromErr? then ([], [])
    else if pick.FromStdout? then (Rest(r.stdout)[..if Rest(r.stdout) == [] then 0 else 1], [])
    else ([], Rest(r.stderr)[..if Rest(r.stderr) == [] then 0 else 1])
  }

  lemma FlattenOne(line: Line)
    ensures Flatten([line]) == line + [NEWLINE]
  {
    assert Flatten([line]) == line + [NEWLINE] + Flatten([]);
  }

  lemma RefillConserves(r: Reader, pick: Pick)
    requires Live(r) && !r.closed && Enabled(r, pick)
    ensures var s := Refill(r, pick);
            var (a, b) := Received(r, pick);
            && |a + b| <= 1
            && Rest(r.stdout) == a + Rest(s.stdout)
            && Rest(r.stderr) == b + Rest(s.stderr)
            && r.buffer + Flatten(a + b) == s.buffer
  {
    var (a, b) := Received(r, pick);
    if a != [] {
      FlattenOne(a[0]);
      assert a + b == [a[0]];
    } else if b != [] {
      FlattenOne(b[0]);
      assert a + b == [b[0]];
    }
  }

  lemma StepConserves(r: Reader, call: Call)
    requires Live(r) && Enabled(r, call.pick)
    ensures var (next, bytes, _) := ReadStep(r, call.room, call.pick);
            var (a, b) := Received(r, call.pick);
            && |a + b| <= 1
            && Rest(r.stdout) == a + Rest(next.stdout)
            && Rest(r.stderr) == b + Rest(next.stderr)
            && r.buffer + Flatten(a + b) == bytes + next.buffer
  {
    if !r.closed {
      RefillConserves(r, call.pick);
    }
  }

  /** At every moment of every run, for any interleaving, slice sizes and reported errors. */
  lemma {:induction false} NothingLostOrRepeated(r: Reader, calls: seq<Call>) returns (m: seq<Line>, a: seq<Line>, b: seq<Line>)
    requires Live(r) && Possible(r, calls)
    ensures Live(After(r, calls))
    ensures Conserved(r, After(r, calls), Output(r, calls), m, a, b)
    decreases calls
  {
    if calls == [] {
      m, a, b := [], [], [];
    } else {
      var call := calls[0];
      var (next, bytes, _) := ReadStep(r, call.room, call.pick);
      StepKeepsLive(r, call.room, call.pick);
      StepConserves(r, call);
      var (a0, b0) := Received(r, call.pick);
      var m1, a1, b1 := NothingLostOrRepeated(next, calls[1..]);
      m, a, b := a0 + b0 + m1, a0 + a1, b0 + b1;
      Compose(r, next, After(next, calls[1..]), bytes, Output(next, calls[1..]), a0, b0, m1, a1, b1);
    }
  }

  lemma Compose(r: Reader, next: Reader, last: Reader, bytes: seq<bv8>, out: seq<bv8>,
                a0: seq<Line>, b0: seq<Line>, m: seq<Line>, a: seq<Line>, b: seq<Line>)
    requires |a0 + b0| <= 1
    requires Rest(r.stdout) == a0 + Rest(next.stdout) && Rest(r.stderr) == b0 + Rest(next.stderr)
    requires r.buffer + Flatten(a0 + b0) == bytes + next.buffer
    requires Conserved(next, last, out, m, a, b)
    ensures Conserved(r, last, bytes + out, a0 + b0 + m, a0 + a, b0 + b)
  {
    Prepend(a0, b0, m, a, b);
    Reassociate(a0, a, Rest(last.stdout));
    Reassociate(b0, b, Rest(last.stderr));
    Regroup(r.buffer, Flatten(a0 + b0), Flatten(m), bytes, next.buffer, out, last.buffer);
  }

  lemma Reassociate(x: seq<Line>, y: seq<Line>, z: seq<Line>)
    ensures x + (y + z) == (x + y) + z
  {
  }

  lemma Regroup(old0: seq<bv8>, f0: seq<bv8>, f1: seq<bv8>, bytes: seq<bv8>, mid: seq<bv8>, out: seq<bv8>, end: seq<bv8>)
    requires old0 + f0 == bytes + mid && mid + f1 == out + end
    ensures old0 + (f0 + f1) == (bytes + out) + end
  {
    assert old0 + (f0 + f1) == (old0 + f0) + f1;
    assert (bytes + mid) + f1 == bytes + (mid + f1);
  }

  lemma Prepend(a0: seq<Line>, b0: seq<Line>, m: seq<Line>, a: seq<Line>, b: seq<Line>)
    requires |a0 + b0| <= 1 && IsMerge(m, a, b)
    ensures IsMerge(a0 + b0 + m, a0 + a, b0 + b)
    ensures Flatten(a0 + b0 + m) == Flatten(a0 + b0) + Flatten(m)
  {
    if a0 != [] {
      assert a0 == [a0[0]] && b0 == [];
      assert a0 + b0 == [a0[0]] && b0 + b == b;
      PrependOut(a0[0], m, a, b);
      FlattenFirst(a0[0], m);
    } else if b0 != [] {
      assert b0 == [b0[0]];
      assert a0 + b0 == [b0[0]] && a0 + a == a;
      PrependErr(b0[0], m, a, b);
      FlattenFirst(b0[0], m);
    } else {
      assert a0 + b0 == [] && a0 + b0 + m == m && a0 + a == a && b0 + b == b;
      assert [] + Flatten(m) == Flatten(m);
    }
  }

  lemma PrependOut(line: Line, m: seq<Line>, a: seq<Line>, b: seq<Line>)
    requires IsMerge(m, a, b)
    ensures IsMerge([line] + m, [line] + a, b)
  {
    assert ([line] + m)[1..] == m && ([line] + a)[1..] == a;
  }

  lemma PrependErr(line: Line, m: seq<Line>, a: seq<Line>, b: seq<Line>)
    requires IsMerge(m, a, b)
    ensures IsMerge([line] + m, a, [line] + b)
  {
    assert ([line] + m)[1..] == m && ([line] + b)[1..] == b;
  }

  lemma FlattenFirst(line: Line, m: seq<Line>)
    ensures Flatten([line] + m) == Flatten([line]) + Flatten(m)
  {
    assert ([line] + m)[1..] == m;
    FlattenOne(line);
  }

  /** Up to EOF a caller has read exactly one interleaving of all lines, each ended by a
      newline: nothing lost, nothing repeated, each stream in its own order. */
  lemma ReadsOneMerge(stdout: seq<Line>, stderr: seq<Line>, calls: seq<Call>)
    requires var r := Reader(Some(stdout), Some(stderr), [], false);
             Possible(r, calls) && After(r, calls).closed
    ensures exists m ::
              && IsMerge(m, stdout, stderr)
              && Output(Reader(Some(stdout), Some(stderr), [], false), calls) == Flatten(m)
  {
    var r := Reader(Some(stdout), Some(stderr), [], false);
    var m, a, b := NothingLostOrRepeated(r, calls);
    assert Rest(r.stdout) == stdout && Rest(r.stderr) == stderr;
    assert a == stdout && b == stderr;
    assert Output(r, calls) + [] == Output(r, calls) && [] + Flatten(m) == Flatten(m);
  }

  /** The lines in a byte stream, each ended by a byte 10; `partial` are the bytes of a line
      begun before. */
  function LinesOf(bytes: seq<bv8>, partial: Line): seq<Line> {
    if bytes == [] then []
    else if bytes[0] == 10 then [partial] + LinesOf(bytes[1..], [])
    else LinesOf(bytes[1..], partial + [bytes[0]])
  }

  /** A line as the producer sends it, without the byte 10. */
  predicate OneLine(line: Line) {
    forall i :: 0 <= i < |line| ==> line[i] != 10
  }

  lemma {:induction false} FirstLine(line: Line, rest: seq<bv8>, partial: Line)
    requires OneLine(line)
    ensures LinesOf(line + [10] + rest, partial) == [partial + line] + LinesOf(rest, [])
    decreases line
  {
    var bytes := line + [10] + rest;
    if line == [] {
      assert bytes[0] == 10 && bytes[1..] == rest && partial + line == partial;
    } else {
      assert bytes[0] == line[0] && bytes[1..] == line[1..] + [10] + rest;
      FirstLine(line[1..], rest, partial + [line[0]]);
      assert (partial + [line[0]]) + line[1..] == partial + line;
    }
  }

  lemma {:induction false} LinesComeBack(m: seq<Line>)
    requires forall line :: line in m ==> OneLine(line)
    ensures LinesOf(Flatten(m), []) == m
  {
    if m != [] {
      assert m[0] in m;
      FirstLine(m[0], Flatten(m[1..]), []);
      LinesComeBack(m[1..]);
      assert Flatten(m) == m[0] + [10] + Flatten(m[1..]);
      assert [] + m[0] == m[0] && [m[0]] + m[1..] == m;
    }
  }

  lemma {:induction false} MergedLinesFrom(m: seq<Line>, a: seq<Line>, b: seq<Line>)
    requires IsMerge(m, a, b)
    ensures forall line :: line in m ==> line in a || line in b
  {
    if m != [] {
      if a != [] && m[0] == a[0] && IsMerge(m[1..], a[1..], b) {
        MergedLinesFrom(m[1..], a[1..], b);
      } else {
        MergedLinesFrom(m[1..], a, b[1..]);
      }
      assert forall line :: line in m ==> line == m[0] || line in m[1..];
    }
  }

  /** A caller that splits what it read up to EOF at the line feeds has the lines again: one
      interleaving of all lines of both streams. */
  lemma LinesReadAreOneMerge(stdout: seq<Line>, stderr: seq<Line>, calls: seq<Call>)
    requires forall line :: line in stdout || line in stderr ==> OneLine(line)
    requires var r := Reader(Some(stdout), Some(stderr), [], false);
             Possible(r, calls) && After(r, calls).closed
    ensures IsMerge(LinesOf(Output(Reader(Some(stdout), Some(stderr), [], false), calls), []), stdout, stderr)
  {
    ReadsOneMerge(stdout, stderr, calls);
    var m :|
      && IsMerge(m, stdout, stderr)
      && Output(Reader(Some(stdout), Some(stderr), [], false), calls) == Flatten(m);
    MergedLinesFrom(m, stdout, stderr);
    LinesComeBack(m);
  }

  /** A Read reports an error exactly when it waits on the select and an error arrives there; it
      reports that error, returns nothing and loses nothing. */
  lemma ErrorsAreReported(r: Reader, room: nat, pick: Pick, message: string)
    requires Enabled(r, pick)
    ensures var (next, bytes, err) := ReadStep(r, room, pick);
            && (err == Failed(message) <==> !r.closed && r.buffer == [] && pick == FromErr(Some(message)))
            && (err == Failed(message) ==> next == r && bytes == [])
  {
  }

  /** Conversely every interleaving can be read: the outputs up to EOF are all the merges. */
  lemma {:induction false} EveryMergeCanBeRead(m: seq<Line>, r: Reader) returns (calls: seq<Call>)
    requires Live(r) && !r.closed && r.buffer == []
    requires IsMerge(m, Rest(r.stdout), Rest(r.stderr))
    ensures Possible(r, calls) && After(r, calls).closed
    ensures Output(r, calls) == Flatten(m)
    decreases m
  {
    if m == [] {
      calls := CloseBoth(r);
    } else {
      var fromOut := Rest(r.stdout) != [] && m[0] == Rest(r.stdout)[0] && IsMerge(m[1..], Rest(r.stdout)[1..], Rest(r.stderr));
      var call := Call(|m[0]| + 1, if fromOut then FromStdout else FromStderr);
      var (next, bytes, _) := ReadStep(r, call.room, call.pick);
      assert bytes == m[0] + [NEWLINE];
      var rest := EveryMergeCanBeRead(m[1..], next);
      calls := [call] + rest;
      assert calls[1..] == rest;
    }
  }

  lemma CloseBoth(r: Reader) returns (calls: seq<Call>)
    requires Live(r) && !r.closed && r.buffer == []
    requires Rest(r.stdout) == [] && Rest(r.stderr) == []
    ensures Possible(r, calls) && After(r, calls).closed && Output(r, calls) == []
  {
    var out, err := Call(0, FromStdout), Call(0, FromStderr);
    if r.stderr.None? {
      calls := [out];
      assert calls[1..] == [];
    } else if r.stdout.None? {
      calls := [err];
      assert calls[1..] == [];
    } else {
      calls := [out, err];
      assert calls[1..] == [err];
      assert [err][1..] == [];
      var (next, _, _) := ReadStep(r, 0, FromStdout);
      assert next == r.(stdout := None);
      var (last, _, _) := ReadStep(next, 0, FromStderr);
      assert last.closed;
      assert Possible(next, [err]) && After(next, [err]) == last && Output(next, [err]) == [];
    }
  }

  /** Close ends the stream at once, whatever is still buffered or to come: from then on every
      Read reports EOF and nothing is received, so that all a caller has is what was read
      before. */
  lemma {:induction false} NothingAfterClose(r: Reader, calls: seq<Call>)
    ensures var closed := r.(closed := true);
            && Possible(closed, calls) && After(closed, calls) == closed && Output(closed, calls) == []
            && forall i :: 0 <= i < |calls| ==> ReadStep(closed, calls[i].room, calls[i].pick) == (closed, [], EOF)
    decreases calls
  {
    if calls != [] {
      NothingAfterClose(r, calls[1..]);
    }
  }

  // ------------------------------------------------------------ termination

  /** Bytes still to come, bytes buffered, and channels not yet seen closed. */
  function Remaining(r: Reader): nat {
    |Flatten(Rest(r.stdout))| + |Flatten(Rest(r.stderr))| + |r.buffer| +
    (if r.stdout.Some? then 1 else 0) + (if r.stderr.Some? then 1 else 0)
  }

  function ErrorPicks(calls: seq<Call>): nat {
    if calls == [] then 0 else (if calls[0].pick.FromErr? then 1 else 0) + ErrorPicks(calls[1..])
  }

  lemma RefillKeepsRemaining(r: Reader, pick: Pick)
    requires Live(r) && !r.closed && Enabled(r, pick)
    ensures var s := Refill(r, pick);
            && Remaining(s) <= Remaining(r)
            && (s.buffer == [] && !pick.FromErr? ==> Remaining(s) < Remaining(r))
  {
    if r.buffer == [] {
      match pick
      case FromStdout => FlattenLength(r.stdout.value);
      case FromStderr => FlattenLength(r.stderr.value);
      case FromErr(_) =>
    }
  }

  lemma FlattenLength(lines: seq<Line>)
    ensures lines != [] ==> |Flatten(lines)| == |lines[0]| + 1 + |Flatten(lines[1..])|
  {
  }

  lemma ReadMakesProgress(r: Reader, room: nat, pick: Pick)
    requires Live(r) && !r.closed && Enabled(r, pick) && room > 0
    ensures var next := ReadStep(r, room, pick).0;
            Remaining(next) + (if pick.FromErr? then 0 else 1) <= Remaining(r)
  {
    RefillKeepsRemaining(r, pick);
  }

  /** A caller with non-empty slices reaches EOF: after as many reads as there are bytes,
      channels and reported errors to get through, the reader is closed. */
  lemma {:induction false} ReachesEof(r: Reader, calls: seq<Call>)
    requires Live(r) && Possible(r, calls)
    requires forall c :: c in calls ==> c.room > 0
    requires |calls| >= Remaining(r) + ErrorPicks(calls)
    ensures After(r, calls).closed
    decreases calls
  {
    if r.closed {
      StaysClosed(r, calls);
    } else {
      assert Remaining(r) > 0;
      assert calls[0] in calls;
      ReadMakesProgress(r, calls[0].room, calls[0].pick);
      StepKeepsLive(r, calls[0].room, calls[0].pick);
      ReachesEof(ReadStep(r, calls[0].room, calls[0].pick).0, calls[1..]);
    }
  }

  lemma {:induction false} StaysClosed(r: Reader, calls: seq<Call>)
    requires r.closed && Possible(r, calls)
    ensures After(r, calls) == r && Output(r, calls) == []
    decreases calls
  {
    if calls != [] {
      StaysClosed(r, calls[1..]);
    }
  }

  /** While the reader is open some case of its select can always fire, so no run is stuck. */
  lemma NeverStuck(r: Reader)
    requires Live(r)
    ensures exists pick: Pick :: !pick.FromErr? && Enabled(r, pick)
  {
    if r.stdout.Some? {
      assert Enabled(r, FromStdout);
    } else {
      assert Enabled(r, FromStderr);
    }
  }
}
