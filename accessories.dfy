/**
 * The accessory bookkeeping of the controls panel: the list of accessory
 * keys reported by the 3D model component, the list of toggles to display,
 * the ids the initialisation pass hands to the store's `toggleAccessory`, and
 * the state of each checkbox.
 */
module Accessories {

  import opened Wrappers

  /** An entry of the default accessory list: an id and its display label. */
  datatype DefaultAccessory = DefaultAccessory(id: string, caption: string)

  /** Shown when the model has reported no accessory of its own. */
  const DefaultAccessories: seq<DefaultAccessory> := [
    DefaultAccessory("wheel", "Wheels"),
    DefaultAccessory("spoiler", "Spoiler"),
    DefaultAccessory("rim", "Rims"),
    DefaultAccessory("bumper", "Bumper"),
    DefaultAccessory("wing", "Wing")
  ]

  /** `DEFAULT_ACCESSORIES.map(acc => acc.id)` */
  function DefaultIds(): (ids: seq<string>)
    ensures ids == ["wheel", "spoiler", "rim", "bumper", "wing"]
  {
    seq(|DefaultAccessories|, i requires 0 <= i < |DefaultAccessories| => DefaultAccessories[i].id)
  }

  predicate NoDuplicates(s: seq<string>) {
    forall i, j :: 0 <= i < j < |s| ==> s[i] != s[j]
  }

  /**
   * The state updater of the `accessoryFound` handler: the previous list
   * when it already holds the key, the key appended at the end otherwise.
   */
  function AddIfAbsent(prev: seq<string>, key: string): (next: seq<string>)
    ensures key in next
    ensures |next| == if key in prev then |prev| else |prev| + 1
    ensures next[..|prev|] == prev
    ensures forall k :: k in next <==> k in prev || k == key
    ensures NoDuplicates(prev) ==> NoDuplicates(next)
  {
    if !(key in prev) then prev + [key] else prev
  }

  /** The detected list after a run of `accessoryFound` events, starting from the empty list. */
  function DetectAll(events: seq<string>): seq<string> {
    if events == [] then []
    else AddIfAbsent(DetectAll(events[..|events| - 1]), events[|events| - 1])
  }

  /** Whatever events arrive, the detected list holds each reported key exactly once and nothing else. */
  lemma {:induction false} DetectAllSpec(events: seq<string>)
    ensures NoDuplicates(DetectAll(events))
    ensures forall k :: k in DetectAll(events) <==> k in events
  {
    if events != [] {
      var init := events[..|events| - 1];
      DetectAllSpec(init);
      assert events == init + [events[|events| - 1]];
    }
  }

  /** Later events never drop or move an entry of the detected list. */
  lemma {:induction false} DetectAllGrows(events: seq<string>, more: seq<string>)
    ensures |DetectAll(events)| <= |DetectAll(events + more)|
    ensures DetectAll(events + more)[..|DetectAll(events)|] == DetectAll(events)
    decreases |more|
  {
    if more == [] {
      assert events + more == events;
    } else {
      var longer := events + more[..|more| - 1];
      DetectAllGrows(events, more[..|more| - 1]);
      assert events + more == longer + [more[|more| - 1]];
      DetectStep(longer, more[|more| - 1]);
      PrefixTransitive(DetectAll(events), DetectAll(longer), DetectAll(events + more));
    }
  }

  lemma DetectStep(events: seq<string>, key: string)
    ensures DetectAll(events + [key]) == AddIfAbsent(DetectAll(events), key)
  {
    assert (events + [key])[..|events|] == events;
  }

  lemma PrefixTransitive(a: seq<string>, b: seq<string>, c: seq<string>)
    requires |a| <= |b| <= |c| && b[..|a|] == a && c[..|b|] == b
    ensures c[..|a|] == a
  {
    assert c[..|a|] == c[..|b|][..|a|];
  }

  /**
   * `accessoryList`: the detected list when it is non-empty, the default ids
   * in their declared order otherwise.
   */
  function DisplayedAccessories(detected: seq<string>): (list: seq<string>)
    ensures |detected| > 0 ==> list == detected
    ensures |detected| == 0 ==> list == ["wheel", "spoiler", "rim", "bumper", "wing"]
    ensures NoDuplicates(detected) ==> NoDuplicates(list)
  {
    if |detected| > 0 then detected else DefaultIds()
  }

  /**
   * The ids among `ids` that have no entry in `accessories`, in order,
   * once per occurrence: the ids the initialisation pass toggles.
   */
  function MissingIds(ids: seq<string>, accessories: map<string, bool>): (missing: seq<string>)
    ensures forall x :: multiset(missing)[x] == if x in accessories then 0 else multiset(ids)[x]
  {
    if ids == [] then []
    else
      var last := ids[|ids| - 1];
      assert ids == ids[..|ids| - 1] + [last];
      MissingIds(ids[..|ids| - 1], accessories) + (if last in accessories then [] else [last])
  }

  /**
   * One `forEach` pass: calls `toggleAccessory` for every id of `ids` whose
   * `accessories` entry is undefined and returns those calls' arguments in order.
   */
  method ToggleMissing(ids: seq<string>, accessories: map<string, bool>) returns (toggled: seq<string>)
    ensures toggled == MissingIds(ids, accessories)
    ensures forall x :: x in toggled <==> x in ids && x !in accessories
  {
    toggled := [];
    var i := 0;
    while i < |ids|
      invariant 0 <= i <= |ids|
      invariant toggled == MissingIds(ids[..i], accessories)
    {
      MissingIdsStep(ids, i, accessories);
      if Get(accessories, ids[i]) == None {
        toggled := toggled + [ids[i]];
      }
      i := i + 1;
    }
    assert ids[..i] == ids;
    MissingIdsMembers(ids, accessories);
  }

  lemma MissingIdsStep(ids: seq<string>, i: nat, accessories: map<string, bool>)
    requires i < |ids|
    ensures MissingIds(ids[..i + 1], accessories)
      == MissingIds(ids[..i], accessories) + (if ids[i] in accessories then [] else [ids[i]])
  {
    assert ids[..i + 1][..i] == ids[..i];
  }

  lemma MissingIdsMembers(ids: seq<string>, accessories: map<string, bool>)
    ensures forall x :: x in MissingIds(ids, accessories) <==> x in ids && x !in accessories
  {
    forall x ensures x in MissingIds(ids, accessories) <==> x in ids && x !in accessories {
      assert x in MissingIds(ids, accessories) <==> multiset(MissingIds(ids, accessories))[x] > 0;
      assert x in ids <==> multiset(ids)[x] > 0;
    }
  }

  /** On a duplicate-free list the pass toggles each missing id exactly once and no present id. */
  lemma MissingIdsOnce(ids: seq<string>, accessories: map<string, bool>, x: string)
    requires NoDuplicates(ids)
    ensures multiset(MissingIds(ids, accessories))[x] == if x in ids && x !in accessories then 1 else 0
  {
    DistinctCount(ids, x);
  }

  lemma {:induction false} DistinctCount(s: seq<string>, x: string)
    requires NoDuplicates(s)
    ensures multiset(s)[x] == if x in s then 1 else 0
  {
    if s != [] {
      var init := s[..|s| - 1];
      assert s == init + [s[|s| - 1]];
      DistinctCount(init, x);
    }
  }

  /**
   * When the store afterwards has an entry for every toggled id and has lost
   * none, the next pass over the same ids toggles nothing.
   */
  lemma InitialisationSettles(ids: seq<string>, before: map<string, bool>, after: map<string, bool>)
    requires before.Keys <= after.Keys
    requires forall x :: x in MissingIds(ids, before) ==> x in after
    ensures MissingIds(ids, after) == []
  {
    var again := MissingIds(ids, after);
    forall x ensures multiset(again)[x] == 0 {
      assert x !in after ==> multiset(MissingIds(ids, before))[x] == multiset(ids)[x];
      assert multiset(MissingIds(ids, before))[x] > 0 ==> x in MissingIds(ids, before);
    }
    assert multiset(again) == multiset{};
  }

  /** `checked={accessories[id] || false}`: the stored flag, or false for an undefined entry. */
  function IsChecked(accessories: map<string, bool>, id: string): (checked: bool)
    ensures checked <==> id in accessories && accessories[id]
    ensures id !in accessories ==> !checked
  {
    match Get(accessories, id)
    case Some(flag) => flag || false
    case None => false
  }
}
