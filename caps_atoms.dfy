/**
 * The cap store: the persisted record of caps keyed by id with the id of the
 * selected one, the three write atoms (add, remove, update), each building a
 * fresh record from the current one, and the two read-only views, which fill
 * an empty playlist with "lofi".
 */
module CapsAtoms {
  import opened Wrappers

  /** A cap preset. A playlist missing from stored data is modelled as "" (both are falsy). */
  datatype Cap = Cap(id: string, name: string, letter: string, color: string, letterColor: string, playlist: string)

  /** `CapsState`: the caps keyed by id and the id of the selected one. */
  datatype CapsState = CapsState(selectedCapId: string, caps: map<string, Cap>)

  const DefaultPlaylist: string := "lofi"

  /** Every cap is stored under its own id. */
  ghost predicate WellKeyed(s: CapsState)
  {
    forall k :: k in s.caps ==> s.caps[k].id == k
  }

  /** The selected id names a stored cap. */
  ghost predicate SelectionPresent(s: CapsState)
  {
    s.selectedCapId in s.caps
  }

  /** `initialState`: the Developer and Marketer caps, the first one selected. */
  function InitialState(): (s: CapsState)
    ensures s.caps.Keys == {"1", "2"}
    ensures WellKeyed(s) && SelectionPresent(s) && s.selectedCapId == "1"
    ensures s.caps["1"].name == "Developer" && s.caps["2"].name == "Marketer"
  {
    CapsState(
      "1",
      map[
        "1" := Cap("1", "Developer", "D", "#2E4A9E", "white", "lofi"),
        "2" := Cap("2", "Marketer", "M", "#D6811F", "white", "techno")
      ])
  }

  /**
   * `addCapAtom`: stores `newCap` under its id, replacing any cap with that
   * id, and selects it. Every other entry is kept.
   */
  function AddCap(s: CapsState, newCap: Cap): (r: CapsState)
    ensures r.selectedCapId == newCap.id
    ensures r.caps.Keys == s.caps.Keys + {newCap.id}
    ensures newCap.id in r.caps && r.caps[newCap.id] == newCap
    ensures forall k :: k in s.caps && k != newCap.id ==> r.caps[k] == s.caps[k]
  {
    CapsState(newCap.id, s.caps[newCap.id := newCap])
  }

  /**
   * `removeCapAtom`: keeps the entries whose key differs from `capId`. The
   * selection is left as it was, even when it named the removed cap.
   */
  function RemoveCap(s: CapsState, capId: string): (r: CapsState)
    ensures r.selectedCapId == s.selectedCapId
    ensures r.caps.Keys == s.caps.Keys - {capId}
    ensures forall k :: k in r.caps ==> r.caps[k] == s.caps[k]
    ensures capId in s.caps ==> |r.caps| == |s.caps| - 1
    ensures capId !in s.caps ==> r.caps == s.caps
  {
    var caps := map k | k in s.caps && k != capId :: s.caps[k];
    assert caps.Keys == s.caps.Keys - {capId};
    CapsState(s.selectedCapId, caps)
  }

  /**
   * `updateCapAtom`: stores `updatedCap` under its id, whether or not a cap
   * with that id existed, and leaves the selection alone.
   */
  function UpdateCap(s: CapsState, updatedCap: Cap): (r: CapsState)
    ensures r.selectedCapId == s.selectedCapId
    ensures r.caps.Keys == s.caps.Keys + {updatedCap.id}
    ensures updatedCap.id in r.caps && r.caps[updatedCap.id] == updatedCap
    ensures forall k :: k in s.caps && k != updatedCap.id ==> r.caps[k] == s.caps[k]
  {
    CapsState(s.selectedCapId, s.caps[updatedCap.id := updatedCap])
  }

  /**
   * The playlist default of both views: a cap whose playlist is empty comes
   * back with "lofi", any other cap comes back as it is.
   */
  function WithPlaylist(cap: Cap): (r: Cap)
    ensures r.playlist != ""
    ensures cap.playlist != "" ==> r == cap
    ensures cap.playlist == "" ==> r.playlist == DefaultPlaylist
    ensures r.(playlist := cap.playlist) == cap
  {
    if cap.playlist == "" then cap.(playlist := DefaultPlaylist) else cap
  }

  /**
   * `getSelectedCapAtom`: the selected cap with its playlist defaulted, or
   * `None` (JavaScript's `undefined`) when the selected id names no cap.
   */
  function GetSelectedCap(s: CapsState): (r: Option<Cap>)
    ensures r.None? <==> s.selectedCapId !in s.caps
    ensures r.Some? ==> r.value.playlist != ""
    ensures r.Some? && s.caps[s.selectedCapId].playlist == "" ==> r.value.playlist == DefaultPlaylist
    ensures r.Some? ==> r.value.(playlist := s.caps[s.selectedCapId].playlist) == s.caps[s.selectedCapId]
    ensures r.Some? && s.caps[s.selectedCapId].playlist != "" ==> r.value == s.caps[s.selectedCapId]
  {
    if s.selectedCapId in s.caps then Some(WithPlaylist(s.caps[s.selectedCapId])) else None
  }

  /** `order` lists each key of `caps` exactly once: the order `Object.values` visits them in. */
  predicate IsKeyOrder(order: seq<string>, caps: map<string, Cap>)
  {
    && (forall i :: 0 <= i < |order| ==> order[i] in caps)
    && (forall k :: k in caps ==> k in order)
    && (forall i, j :: 0 <= i < j < |order| ==> order[i] != order[j])
  }

  /**
   * `getAllCapsAtom`: every stored cap, with its playlist defaulted, in the
   * order `order` that `Object.values` enumerates the keys in.
   */
  function GetAllCaps(s: CapsState, order: seq<string>): (r: seq<Cap>)
    requires IsKeyOrder(order, s.caps)
    ensures |r| == |order|
    ensures forall i :: 0 <= i < |r| ==> r[i] == WithPlaylist(s.caps[order[i]])
  {
    seq(|order|, i requires 0 <= i < |order| => WithPlaylist(s.caps[order[i]]))
  }

  /** A duplicate-free enumeration of a set has as many elements as the set. */
  lemma {:induction false} KeyOrderLength(order: seq<string>, keys: set<string>)
    requires forall i :: 0 <= i < |order| ==> order[i] in keys
    requires forall k :: k in keys ==> k in order
    requires forall i, j :: 0 <= i < j < |order| ==> order[i] != order[j]
    ensures |order| == |keys|
    decreases |order|
  {
    if order != [] {
      var last := order[|order| - 1];
      var init := order[..|order| - 1];
      assert last !in init by {
        forall i | 0 <= i < |init| ensures init[i] != last { assert order[i] != order[|order| - 1]; }
      }
      forall k | k in keys - {last} ensures k in init {
        var i :| 0 <= i < |order| && order[i] == k;
        assert i != |order| - 1;
        assert init[i] == k;
      }
      KeyOrderLength(init, keys - {last});
    } else {
      assert forall k :: k in keys ==> k in order;
      assert keys == {};
    }
  }

  /**
   * The all-caps view has exactly one element per stored cap: each stored
   * cap appears once, with a non-empty playlist and otherwise unchanged, and
   * each element comes from a stored cap.
   */
  lemma AllCapsCorrespond(s: CapsState, order: seq<string>)
    requires IsKeyOrder(order, s.caps)
    ensures |GetAllCaps(s, order)| == |s.caps|
    ensures forall k :: k in s.caps ==>
      exists i :: 0 <= i < |order| && order[i] == k && GetAllCaps(s, order)[i] == WithPlaylist(s.caps[k])
    ensures forall c :: c in GetAllCaps(s, order) ==>
      c.playlist != "" && exists k :: k in s.caps && c == WithPlaylist(s.caps[k])
  {
    KeyOrderLength(order, s.caps.Keys);
    StoredCapsAreListed(s, order);
    ListedCapsAreStored(s, order);
  }

  /** Every stored cap is listed, at the position of its key. */
  lemma StoredCapsAreListed(s: CapsState, order: seq<string>)
    requires IsKeyOrder(order, s.caps)
    ensures forall k :: k in s.caps ==>
      exists i :: 0 <= i < |order| && order[i] == k && GetAllCaps(s, order)[i] == WithPlaylist(s.caps[k])
  {
    forall k | k in s.caps
      ensures exists i :: 0 <= i < |order| && order[i] == k && GetAllCaps(s, order)[i] == WithPlaylist(s.caps[k])
    {
      var i :| 0 <= i < |order| && order[i] == k;
      assert GetAllCaps(s, order)[i] == WithPlaylist(s.caps[k]);
    }
  }

  /** Every listed cap is a stored cap with its playlist defaulted. */
  lemma ListedCapsAreStored(s: CapsState, order: seq<string>)
    requires IsKeyOrder(order, s.caps)
    ensures forall c :: c in GetAllCaps(s, order) ==>
      c.playlist != "" && exists k :: k in s.caps && c == WithPlaylist(s.caps[k])
  {
  }

  /** Add, update and remove keep every cap stored under its own id. */
  lemma WritesKeepKeys(s: CapsState, cap: Cap, capId: string)
    requires WellKeyed(s)
    ensures WellKeyed(AddCap(s, cap))
    ensures WellKeyed(UpdateCap(s, cap))
    ensures WellKeyed(RemoveCap(s, capId))
  {
  }

  /** Updating with the same cap twice is updating once. */
  lemma UpdateIsIdempotent(s: CapsState, cap: Cap)
    ensures UpdateCap(UpdateCap(s, cap), cap) == UpdateCap(s, cap)
  {
  }

  /** A cap just added is the selected one, and the view returns it (playlist defaulted). */
  lemma AddThenGetSelected(s: CapsState, cap: Cap)
    ensures GetSelectedCap(AddCap(s, cap)) == Some(WithPlaylist(cap))
  {
  }

  /**
   * Removing the selected cap leaves the selection dangling: the selected
   * view then returns `None`.
   */
  lemma RemoveSelectedDangles(s: CapsState)
    ensures GetSelectedCap(RemoveCap(s, s.selectedCapId)).None?
    ensures RemoveCap(s, s.selectedCapId).selectedCapId == s.selectedCapId
  {
  }

  /** Updating a cap other than the selected one does not change what the selected view returns. */
  lemma UpdateElsewhereKeepsSelection(s: CapsState, cap: Cap)
    requires s.selectedCapId != cap.id
    ensures GetSelectedCap(UpdateCap(s, cap)) == GetSelectedCap(s)
  {
  }

  /**
   * From the seed, adding a QA cap selects it; removing it again leaves
   * exactly the Developer and Marketer caps, with the selection dangling
   * until the caller moves it.
   */
  lemma SeedAddRemoveScenario()
    ensures var qa := Cap("3", "QA", "Q", "#000", "#fff", "lofi");
      var added := AddCap(InitialState(), qa);
      var removed := RemoveCap(added, "3");
      && GetSelectedCap(added) == Some(qa)
      && removed.caps == InitialState().caps
      && GetSelectedCap(removed).None?
      && GetSelectedCap(removed.(selectedCapId := "1")) == Some(InitialState().caps["1"])
  {
    var qa := Cap("3", "QA", "Q", "#000", "#fff", "lofi");
    var seed := InitialState();
    var added := AddCap(seed, qa);
    var removed := RemoveCap(added, "3");
    assert removed.caps.Keys == seed.caps.Keys;
  }

  /** A cap just added appears in the all-caps view (its playlist defaulted). */
  lemma AddThenGetAll(s: CapsState, cap: Cap, order: seq<string>)
    requires IsKeyOrder(order, AddCap(s, cap).caps)
    ensures WithPlaylist(cap) in GetAllCaps(AddCap(s, cap), order)
  {
    var added := AddCap(s, cap);
    AllCapsCorrespond(added, order);
    var i :| 0 <= i < |order| && order[i] == cap.id && GetAllCaps(added, order)[i] == WithPlaylist(added.caps[cap.id]);
  }

  /**
   * The all-caps view of the seed, whatever order it is enumerated in, has
   * two caps, the ones with ids "1" and "2".
   */
  lemma SeedAllCaps(order: seq<string>)
    requires IsKeyOrder(order, InitialState().caps)
    ensures |GetAllCaps(InitialState(), order)| == 2
    ensures forall c :: c in GetAllCaps(InitialState(), order) ==> c.id == "1" || c.id == "2"
    ensures exists c :: c in GetAllCaps(InitialState(), order) && c.id == "1"
    ensures exists c :: c in GetAllCaps(InitialState(), order) && c.id == "2"
  {
    var seed := InitialState();
    AllCapsCorrespond(seed, order);
    assert |seed.caps| == 2 by {
      assert seed.caps.Keys == {"1", "2"};
    }
    assert WithPlaylist(seed.caps["1"]) == seed.caps["1"];
    assert WithPlaylist(seed.caps["2"]) == seed.caps["2"];
  }

}
