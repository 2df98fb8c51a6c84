/** Runs of one node under crashes: which state a restarted store finds on disk. */
module CrashSafety {
  import opened Types
  import opened Storage

  /** A node is its files and, while the process is alive, its memory. */
  datatype Node = Node(mem: Option<ClusterState>, files: Files)

  /** A restart may come at any time: it also models a crash between two operations. */
  datatype Event =
    | Mutate(m: Mutation, now: int, fate: PersistFate)
    | Restart(readFails: bool)

  function Step(codec: Codec, n: Node, e: Event): Node {
    match e
    case Restart(readFails) =>
      Node(Some(if readFails then EMPTY_STATE else LoadFrom(codec, n.files)), n.files)
    case Mutate(m, now, fate) =>
      if n.mem.None? || !Persists(n.mem.value, m) then
        n
      else
        var s := Apply(n.mem.value, m, now);
        Node(if fate.Dies() then None else Some(s), PersistFiles(n.files, codec.encode(s), fate))
  }

  function Run(codec: Codec, n: Node, es: seq<Event>): Node {
    if es == [] then n else Step(codec, Run(codec, n, es[..|es| - 1]), es[|es| - 1])
  }

  /** The event changes memory and gets its temporary file renamed. */
  predicate CommitStep(n: Node, e: Event) {
    e.Mutate? && e.fate.Renames() && n.mem.Some? && Persists(n.mem.value, e.m)
  }

  /** Event i of the run is such an event. */
  ghost predicate Commits(codec: Codec, n: Node, es: seq<Event>, i: nat)
    requires i < |es|
  {
    CommitStep(Run(codec, n, es[..i]), es[i])
  }

  /** The memory that a committing event i left behind. */
  ghost function Written(codec: Codec, n: Node, es: seq<Event>, i: nat): ClusterState
    requires i < |es| && Commits(codec, n, es, i)
  {
    Apply(Run(codec, n, es[..i]).mem.value, es[i].m, es[i].now)
  }

  ghost predicate LastCommit(codec: Codec, n: Node, es: seq<Event>, i: nat) {
    i < |es| && Commits(codec, n, es, i) && forall j :: i < j < |es| ==> !Commits(codec, n, es, j)
  }

  lemma CommitsOfPrefix(codec: Codec, n: Node, es: seq<Event>, k: nat, i: nat)
    requires i < k <= |es|
    ensures Commits(codec, n, es[..k], i) == Commits(codec, n, es, i)
    ensures Commits(codec, n, es, i) ==> Written(codec, n, es[..k], i) == Written(codec, n, es, i)
  {
    assert es[..k][..i] == es[..i];
  }

  /** Crash safety of a whole run: state.json is absent exactly as long as nothing committed,
      and otherwise is the whole encoding of what the last commit left in memory. Torn or
      abandoned temporary files, failed persists and failed loads never show through. */
  lemma {:induction false} FileIsLastCommit(codec: Codec, n: Node, es: seq<Event>)
    requires n.files.state == None
    ensures var file := Run(codec, n, es).files.state;
            && (file == None <==> forall i :: 0 <= i < |es| ==> !Commits(codec, n, es, i))
            && (file.Some? ==> exists i: nat ::
                  LastCommit(codec, n, es, i) && file == Some(codec.encode(Written(codec, n, es, i))))
  {
    if es != [] {
      var k := |es| - 1;
      var init := es[..k];
      FileIsLastCommit(codec, n, init);
      forall i: nat | i < k
        ensures Commits(codec, n, init, i) == Commits(codec, n, es, i)
      {
        CommitsOfPrefix(codec, n, es, k, i);
      }
      var file := Run(codec, n, es).files.state;
      if Commits(codec, n, es, k) {
        assert LastCommit(codec, n, es, k);
        assert file == Some(codec.encode(Written(codec, n, es, k)));
      } else {
        assert file == Run(codec, n, init).files.state;
        if file.Some? {
          var i: nat :| LastCommit(codec, n, init, i)
                        && file == Some(codec.encode(Written(codec, n, init, i)));
          CommitsOfPrefix(codec, n, es, k, i);
          assert LastCommit(codec, n, es, i);
        }
      }
    }
  }

  /** A restart that can read its file finds one whole state: what memory held when the last
      commit was made, or the empty state when there was none. */
  lemma RestartFindsLastCommit(codec: Codec, n: Node, es: seq<Event>)
    requires codec.RoundTrips()
    requires n.files.state == None
    ensures var found := Run(codec, n, es + [Restart(false)]).mem;
            || (found == Some(EMPTY_STATE) && forall i :: 0 <= i < |es| ==> !Commits(codec, n, es, i))
            || exists i: nat :: LastCommit(codec, n, es, i) && found == Some(Written(codec, n, es, i))
  {
    FileIsLastCommit(codec, n, es);
    assert (es + [Restart(false)])[..|es|] == es;
  }

  /** Once a mutation's persist returned nil, its memory survives whatever follows without
      reaching another rename: failed persists, crashes inside persist, restarts. */
  lemma AcknowledgedSurvives(codec: Codec, n: Node, es: seq<Event>, m: Mutation, now: int, later: seq<Event>)
    requires codec.RoundTrips()
    requires Run(codec, n, es).mem.Some? && Persists(Run(codec, n, es).mem.value, m)
    requires forall e :: e in later && e.Mutate? ==> !e.fate.Renames()
    ensures var acked := es + [Mutate(m, now, Completes)];
            Run(codec, n, acked + later + [Restart(false)]).mem == Run(codec, n, acked).mem
  {
    var acked := es + [Mutate(m, now, Completes)];
    assert acked[..|es|] == es;
    SettledFile(codec, n, acked, later);
    assert (acked + later + [Restart(false)])[..|acked + later|] == acked + later;
  }

  lemma {:induction false} SettledFile(codec: Codec, n: Node, es: seq<Event>, later: seq<Event>)
    requires forall e :: e in later && e.Mutate? ==> !e.fate.Renames()
    ensures Run(codec, n, es + later).files.state == Run(codec, n, es).files.state
  {
    if later == [] {
      assert es + later == es;
    } else {
      var k := |later| - 1;
      SettledFile(codec, n, es, later[..k]);
      assert (es + later)[..|es + later| - 1] == es + later[..k];
      assert (es + later)[|es + later| - 1] == later[k];
    }
  }
}
