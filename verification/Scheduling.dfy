/** The scheduler: choice of a node and the table of pods by the ID they were filed under. */
module Scheduling {
  import opened Types

  datatype PodState = Pending | Running | Succeeded | FailedState | Unknown

  datatype Node = Node(name: string, labels: map<string, string>)

  /** A pod as the scheduler's table shows it: its current ID, its node and its state. */
  datatype Entry = Entry(id: string, node: string, state: PodState)

  /** Scheduler table: the ID under which a pod was filed -> the pod. */
  type PodTable = map<string, Entry>

  /** Go's map lookup: a missing label reads as the empty string. */
  function Label(labels: map<string, string>, key: string): string {
    if key in labels then labels[key] else ""
  }

  /** matchesSelector of the API, and the test of findNodeBySelector. */
  predicate MatchesSelector(labels: map<string, string>, selector: map<string, string>) {
    forall key :: key in selector ==> Label(labels, key) == selector[key]
  }

  /** A node matches when it has each of the selector's labels with that value; an empty value
      is matched by a missing label as well. */
  lemma MatchesSelectorIff(labels: map<string, string>, selector: map<string, string>)
    ensures MatchesSelector(labels, selector) <==>
            forall key :: key in selector ==>
              (key in labels && labels[key] == selector[key]) || (key !in labels && selector[key] == "")
  {
    assert forall key :: key in selector ==>
      (Label(labels, key) == selector[key] <==>
       (key in labels && labels[key] == selector[key]) || (key !in labels && selector[key] == ""));
  }

  function FirstMatch(selector: map<string, string>, nodes: seq<Node>): Option<string> {
    if nodes == [] then None
    else if MatchesSelector(nodes[0].labels, selector) then Some(nodes[0].name)
    else FirstMatch(selector, nodes[1..])
  }

  /** The node that SchedulePod settles on; `pick` is its random number. */
  function PlaceFor(selector: map<string, string>, nodes: seq<Node>, pick: nat): Option<string> {
    if selector != map[] then FirstMatch(selector, nodes)
    else if nodes == [] then None
    else Some(nodes[pick % |nodes|].name)
  }

  ghost predicate IsFirstMatch(selector: map<string, string>, nodes: seq<Node>, i: nat) {
    && i < |nodes| && MatchesSelector(nodes[i].labels, selector)
    && forall j :: 0 <= j < i ==> !MatchesSelector(nodes[j].labels, selector)
  }

  /** Scheduling succeeds exactly when some node fits, and takes a fitting node: with a selector
      the first match in list order, without one any node of the cluster. */
  lemma PlaceFits(selector: map<string, string>, nodes: seq<Node>, pick: nat)
    ensures var place := PlaceFor(selector, nodes, pick);
            && (place.Some? <==> exists i :: 0 <= i < |nodes| && MatchesSelector(nodes[i].labels, selector))
            && (place.Some? ==> exists i: nat :: i < |nodes| && place == Some(nodes[i].name)
                                  && (if selector == map[] then i == pick % |nodes| else IsFirstMatch(selector, nodes, i)))
  {
    if selector != map[] {
      FirstMatchIsFirst(selector, nodes);
    } else if nodes != [] {
      assert MatchesSelector(nodes[0].labels, selector);
    }
  }

  lemma {:induction false} FirstMatchIsFirst(selector: map<string, string>, nodes: seq<Node>)
    ensures match FirstMatch(selector, nodes)
            case None => forall i :: 0 <= i < |nodes| ==> !MatchesSelector(nodes[i].labels, selector)
            case Some(name) => exists i: nat :: IsFirstMatch(selector, nodes, i) && name == nodes[i].name
  {
    if nodes != [] {
      if MatchesSelector(nodes[0].labels, selector) {
        assert IsFirstMatch(selector, nodes, 0);
      } else {
        FirstMatchIsFirst(selector, nodes[1..]);
        if FirstMatch(selector, nodes).Some? {
          var i: nat :| IsFirstMatch(selector, nodes[1..], i) && FirstMatch(selector, nodes) == Some(nodes[1..][i].name);
          forall j | 0 <= j < i + 1
            ensures !MatchesSelector(nodes[j].labels, selector)
          {
            assert j > 0 ==> nodes[1..][j - 1] == nodes[j];
          }
          assert IsFirstMatch(selector, nodes, i + 1);
        } else {
          forall j | 0 <= j < |nodes|
            ensures !MatchesSelector(nodes[j].labels, selector)
          {
            assert j > 0 ==> nodes[1..][j - 1] == nodes[j];
          }
        }
      }
    }
  }

  /** UpdatePodState on the table: only a pod that is filed under this very ID is found. */
  function SetState(t: PodTable, id: string, state: PodState): PodTable {
    if id in t then t[id := t[id].(state := state)] else t
  }

  class PodRecord {
    var id: string
    var nodeName: string
    var state: PodState
    /** The one key of the scheduler's table under which the pod may be found. */
    ghost var filedAs: string

    constructor (id: string)
      ensures this.id == id && nodeName == "" && state == Pending
    {
      this.id, nodeName, state, filedAs := id, "", Pending, "";
    }

    function View(): Entry
      reads this
    {
      Entry(id, nodeName, state)
    }
  }

  class Scheduler {
    var pods: map<string, PodRecord>
    /** What the table shows, and all pods that were ever filed in it. */
    ghost var table: PodTable
    ghost var repr: set<PodRecord>

    /** No pod object is filed twice, and `table` is what the filed pods look like. */
    ghost predicate Valid()
      reads this, repr
    {
      && table.Keys == pods.Keys
      && forall id :: id in pods ==> pods[id] in repr && pods[id].filedAs == id && table[id] == pods[id].View()
    }

    constructor ()
      ensures Valid() && table == map[] && repr == {}
    {
      pods, table, repr := map[], map[], {};
    }

    method SchedulePod(pod: PodRecord, selector: map<string, string>, nodes: seq<Node>, pick: nat) returns (place: Option<string>)
      requires Valid()
      modifies this, pod`nodeName, pod`filedAs
      ensures place == PlaceFor(selector, nodes, pick)
      ensures place.Some? ==> pod.nodeName == place.value && pods == old(pods)[pod.id := pod] && repr == old(repr) + {pod}
      ensures place.None? ==> pod.nodeName == old(pod.nodeName) && pods == old(pods) && repr == old(repr)
      ensures table == if place.Some? then old(table)[pod.id := pod.View()] else old(table)
      ensures place.None? || pod !in old(repr) ==> Valid()
    {
      if |selector| > 0 {
        place := FindNodeBySelector(selector, nodes);
        if place.None? {
          return;
        }
      } else {
        if |nodes| == 0 {
          return None;
        }
        place := Some(nodes[pick % |nodes|].name);
      }
      pod.nodeName, pod.filedAs := place.value, pod.id;
      pods, repr := pods[pod.id := pod], repr + {pod};
      table := table[pod.id := pod.View()];
    }

    static method FindNodeBySelector(selector: map<string, string>, nodes: seq<Node>) returns (place: Option<string>)
      ensures place == FirstMatch(selector, nodes)
    {
      for i := 0 to |nodes|
        invariant FirstMatch(selector, nodes) == FirstMatch(selector, nodes[i..])
      {
        var matches := true;
        var todo := selector.Keys;
        while todo != {}
          invariant todo <= selector.Keys
          invariant matches
          invariant forall key :: key in selector.Keys - todo ==> Label(nodes[i].labels, key) == selector[key]
          decreases todo
        {
          var key :| key in todo;
          todo := todo - {key};
          if Label(nodes[i].labels, key) != selector[key] {
            matches := false;
            break;
          }
        }
        if matches {
          return Some(nodes[i].name);
        }
      }
      return None;
    }

    method RemovePod(id: string)
      requires Valid()
      modifies this
      ensures Valid() && repr == old(repr) && table == old(table) - {id}
    {
      pods, table := pods - {id}, table - {id};
    }

    method UpdatePodState(id: string, state: PodState) returns (err: bool)
      requires Valid()
      modifies this`table, repr`state
      ensures err <==> id !in table
      ensures Valid() && table == SetState(old(table), id, state)
      ensures id in old(table) ==> table == old(table)[id := Entry(old(table)[id].id, old(table)[id].node, state)]
    {
      if id !in pods {
        return true;
      }
      pods[id].state := state;
      table := SetState(table, id, state);
      return false;
    }
  }
}
