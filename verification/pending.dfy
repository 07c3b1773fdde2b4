/**
 * The queue of pending actions of the settings dialog: choosing an action
 * for the selected extension stages it (`update_pending_actions`), the
 * dialog shows the staged actions (`get_pending_actions_string`), and saving
 * performs them in the order they were staged (`perform_pending_actions`).
 */
module Pending {
  import opened Wrappers
  import opened Text
  import opened OrderedMaps
  import opened Catalog
  import opened Status
  import opened Lifecycle

  /** `ACTION_NO_CHANGE`: the "Revert Action" choice. */
  const ActionNoChange := 0

  /** A staged action and the text the dialog shows for it. */
  datatype PendingAction = PendingAction(action: int, friendly: string)

  /** `pending_actions`: extension name (as an object key) to staged action. */
  type Queue = OMap<string, PendingAction>

  /** The dialog values the queue logic reads: the selected category, the
      selected extension and the chosen action, each possibly undefined. */
  datatype Values = Values(selectedCategory: Option<int>, selectedExtension: Option<string>, action: Option<int>)

  /** `is_pending`: an entry is an object, so truthy exactly when present. */
  function IsPending(queue: Queue, name: Option<string>): (b: bool)
    ensures b <==> Coerce(name) in Keys(queue)
    ensures b ==> exists p :: Entry(Coerce(name), p) in queue
  {
    Get(queue, Coerce(name)).Some?
  }

  // ---------------------------------------------------------------------------
  // update_pending_actions
  // ---------------------------------------------------------------------------

  /** The action list offers `action`. */
  predicate Offered(actionList: seq<ActionPair>, action: int) {
    exists i :: 0 <= i < |actionList| && actionList[i].value == action
  }

  /** The position of the first entry of the action list that offers `action`. */
  function FirstOffered(actionList: seq<ActionPair>, action: int): (i: nat)
    ensures i <= |actionList|
    ensures i < |actionList| <==> Offered(actionList, action)
    ensures i < |actionList| ==> actionList[i].value == action
    ensures forall k :: 0 <= k < i ==> actionList[k].value != action
  {
    if |actionList| == 0 then 0
    else if actionList[0].value == action then 0
    else
      var i := 1 + FirstOffered(actionList[1..], action);
      assert Offered(actionList, action) ==> Offered(actionList[1..], action) by {
        if Offered(actionList, action) {
          var k :| 0 <= k < |actionList| && actionList[k].value == action;
          assert actionList[1..][k - 1] == actionList[k];
        }
      }
      i
  }

  /** The queue and values after an update, and the index cache `get_details` leaves. */
  datatype Staged = Staged(queue: Queue, values: Values, cache: Cache)

  /** `update_pending_actions`: with an action chosen, "Revert Action" drops
      the selected extension's entry, and an action the current action list
      offers stages that action under its title and the extension's display
      name; the chosen action is then cleared from the values. `None` where
      `get_details` throws because the name has no entry. */
  function UpdatePending(repos: seq<Category>, cache: Cache, queue: Queue, actionList: seq<ActionPair>, v: Values): (r: Option<Staged>)
    requires Resolvable(repos)
    ensures v.action.None? ==> r == Some(Staged(queue, v, cache))
    ensures r.Some? ==> r.value.values == v.(action := None) && cache.Keys <= r.value.cache.Keys
    ensures r.None? <==>
              && v.action.Some? && v.action.value != ActionNoChange
              && Offered(actionList, v.action.value)
              && Details(repos, cache, v.selectedExtension).0.None?
    ensures r.Some? && Distinct(queue) ==> Distinct(r.value.queue)
    ensures r.Some? ==> forall k :: k != Coerce(v.selectedExtension) ==> Get(r.value.queue, k) == Get(queue, k)
    ensures r.Some? && v.action == Some(ActionNoChange) ==> !IsPending(r.value.queue, v.selectedExtension)
    ensures r.Some? && v.action.Some? && !Offered(actionList, v.action.value) ==>
              v.action.value == ActionNoChange || r.value.queue == queue
    ensures r.Some? && v.action.Some? && v.action.value != ActionNoChange && Offered(actionList, v.action.value) ==>
              var ext := Details(repos, cache, v.selectedExtension).0.value;
              var title := actionList[FirstOffered(actionList, v.action.value)].title;
              Get(r.value.queue, Coerce(v.selectedExtension))
                == Some(PendingAction(v.action.value, title + " " + Coerce(ext.displayName)))
  {
    var key := Coerce(v.selectedExtension);
    match v.action
    case None => Some(Staged(queue, v, cache))
    case Some(action) =>
      var cleared := v.(action := None);
      if action == ActionNoChange then
        RemoveGet(queue, key);
        assert Distinct(queue) ==> Distinct(Remove(queue, key)) by {
          if Distinct(queue) { RemoveDistinct(queue, key); }
        }
        Some(Staged(Remove(queue, key), cleared, cache))
      else
        var i := FirstOffered(actionList, action);
        if i == |actionList| then Some(Staged(queue, cleared, cache))
        else
          var details := Details(repos, cache, v.selectedExtension);
          match details.0
          case None => None
          case Some(ext) =>
            var staged := PendingAction(action, actionList[i].title + " " + Coerce(ext.displayName));
            PutGet(queue, key, staged);
            assert Distinct(queue) ==> Distinct(Put(queue, key, staged)) by {
              if Distinct(queue) { PutDistinct(queue, key, staged); }
            }
            Some(Staged(Put(queue, key, staged), cleared, details.1))
  }

  // ---------------------------------------------------------------------------
  // get_pending_actions_string
  // ---------------------------------------------------------------------------

  /** The friendly texts of the queue, in key order. */
  function Friendlies(queue: Queue): (fs: seq<string>)
    ensures |fs| == |queue|
    ensures forall i :: 0 <= i < |queue| ==> fs[i] == queue[i].value.friendly
  {
    if |queue| == 0 then [] else [queue[0].value.friendly] + Friendlies(queue[1..])
  }

  /** Each entry's friendly text followed by a line break, in key order. */
  function Lines(queue: Queue): (s: string)
    ensures s == "" <==> queue == []
    ensures queue != [] ==> s[|s| - 1] == '\n'
  {
    if |queue| == 0 then ""
    else queue[0].value.friendly + "\n" + Lines(queue[1..])
  }

  /** `get_pending_actions_string`: the lines of the queue, or "(none)" when
      there are none. */
  function Describe(queue: Queue): (s: string)
    ensures s == "(none)" <==> queue == []
  {
    var text := Lines(queue);
    if text == "" then "(none)" else text
  }

  /** The lines are the friendly texts joined by line breaks, with a final one. */
  lemma {:induction false} LinesJoin(queue: Queue)
    ensures Lines(queue) == Join(Friendlies(queue) + [""], "\n")
  {
    if |queue| > 0 {
      LinesJoin(queue[1..]);
      var parts := Friendlies(queue) + [""];
      assert parts[1..] == Friendlies(queue[1..]) + [""];
    }
  }

  /** When no friendly text contains a line break, the description of a
      non-empty queue splits at line breaks into the friendly texts, in key
      order, followed by an empty piece. */
  lemma DescribeLists(queue: Queue)
    requires queue != []
    requires forall i :: 0 <= i < |queue| ==> '\n' !in queue[i].value.friendly
    ensures Split(Describe(queue), "\n") == Friendlies(queue) + [""]
  {
    var parts := Friendlies(queue) + [""];
    assert Describe(queue) == Join(parts, ['\n']) by {
      LinesJoin(queue);
    }
    forall i | 0 <= i < |parts| ensures '\n' !in parts[i] {
      if i < |queue| {
        assert parts[i] == Friendlies(queue)[i] == queue[i].value.friendly;
      } else {
        assert parts[i] == "";
      }
    }
    SplitJoin(parts, '\n');
  }

  // ---------------------------------------------------------------------------
  // perform_pending_actions
  // ---------------------------------------------------------------------------

  /** Performing the staged actions in key order, one `perform_action` per
      entry with its action and name; `None` once one of them throws. */
  function PerformAll(m: Manager, entries: Queue): Option<Manager>
    decreases |entries|
  {
    if |entries| == 0 then Some(m)
    else
      match Perform(m, entries[0].value.action, entries[0].key)
      case None => None
      case Some(m') => PerformAll(m', entries[1..])
  }

  /** Performing one more entry after a run of entries. */
  lemma {:induction false} PerformAllAppend(m: Manager, entries: Queue, e: Entry<string, PendingAction>)
    ensures PerformAll(m, entries + [e]) ==
              match PerformAll(m, entries)
              case None => None
              case Some(m') => Perform(m', e.value.action, e.key)
    decreases |entries|
  {
    if |entries| == 0 {
      assert PerformAll(m, [e]) == match Perform(m, e.value.action, e.key)
                                     case None => None
                                     case Some(m') => PerformAll(m', []);
    } else {
      assert (entries + [e])[1..] == entries[1..] + [e];
      match Perform(m, entries[0].value.action, entries[0].key)
      case None =>
      case Some(m') => PerformAllAppend(m', entries[1..], e);
    }
  }

  /** Once an entry throws, performing further entries still throws. */
  lemma {:induction false} PerformAllStops(m: Manager, entries: Queue, rest: Queue)
    requires PerformAll(m, entries).None?
    ensures PerformAll(m, entries + rest).None?
    decreases |entries|
  {
    assert (entries + rest)[..|entries|] == entries;
    if |entries| > 0 {
      assert (entries + rest)[1..] == entries[1..] + rest;
      match Perform(m, entries[0].value.action, entries[0].key)
      case None =>
      case Some(m') => PerformAllStops(m', entries[1..], rest);
    }
  }

  /** `perform_pending_actions`: performs each entry in key order and then
      deletes it. When every action completes the queue is left empty; when
      one throws, the entries from the throwing one on are left in place. */
  method PerformPending(m: Manager, queue: Queue) returns (r: Option<Manager>, left: Queue)
    requires Distinct(queue)
    ensures r == PerformAll(m, queue)
    ensures r.Some? <==> left == []
    ensures |left| <= |queue| && left == queue[|queue| - |left|..]
    ensures r.None? ==>
              var done := PerformAll(m, queue[..|queue| - |left|]);
              done.Some? && Perform(done.value, left[0].value.action, left[0].key).None?
  {
    var cur := m;
    var pending := queue;
    var i := 0;
    while i < |queue|
      invariant 0 <= i <= |queue|
      invariant PerformAll(m, queue[..i]) == Some(cur)
      invariant pending == queue[i..]
    {
      var e := queue[i];
      var next := Perform(cur, e.value.action, e.key);
      assert queue[..i + 1] == queue[..i] + [e];
      PerformAllAppend(m, queue[..i], e);
      if next.None? {
        PerformAllStops(m, queue[..i + 1], queue[i + 1..]);
        assert queue[..i + 1] + queue[i + 1..] == queue;
        return None, pending;
      }
      assert Distinct(pending) by {
        forall a, b | 0 <= a < b < |pending| ensures pending[a].key != pending[b].key {
          assert pending[a] == queue[i + a] && pending[b] == queue[i + b];
        }
      }
      RemoveEntry(pending, 0);
      pending := Remove(pending, e.key);
      assert pending == queue[i + 1..];
      cur := next.value;
      i := i + 1;
    }
    assert queue[..i] == queue;
    return Some(cur), pending;
  }

  /** Performing the staged actions keeps the runner's trace well formed. */
  lemma {:induction false} PerformAllKeepsGood(m: Manager, entries: Queue)
    requires Good(m) && PerformAll(m, entries).Some?
    ensures Good(PerformAll(m, entries).value)
    decreases |entries|
  {
    if |entries| > 0 {
      var e := entries[0];
      PerformKeepsGood(m, e.value.action, e.key);
      PerformAllKeepsGood(Perform(m, e.value.action, e.key).value, entries[1..]);
    }
  }
}
