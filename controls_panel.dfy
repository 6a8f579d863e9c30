/**
 * The controls panel: its own state (the accessory keys the 3D model
 * component reported, the selected model scale) and what it derives from that
 * state and from the configuration store's `accessories` map.
 */
module ControlsUI {

  import opened AccessoryLabels
  import opened Accessories
  import opened ScaleParam

  /** What one accessory checkbox shows: its id, whether it is ticked, and its label. */
  datatype ToggleRow = ToggleRow(id: string, checked: bool, text: string)

  /** `accessoryList.map(...)`: one checkbox row per id, in list order. */
  function ToggleRows(list: seq<string>, accessories: map<string, bool>): (rows: seq<ToggleRow>)
    ensures |rows| == |list|
    ensures forall i :: 0 <= i < |rows| ==> rows[i].id == list[i]
    ensures forall i :: 0 <= i < |rows| ==>
      (rows[i].checked <==> list[i] in accessories && accessories[list[i]])
    ensures forall i :: 0 <= i < |rows| ==> rows[i].text == AccessoryLabel(list[i])
  {
    if list == [] then []
    else
      [ToggleRow(list[0], IsChecked(accessories, list[0]), AccessoryLabel(list[0]))]
        + ToggleRows(list[1..], accessories)
  }

  /** Rows built from a duplicate-free list have distinct ids, so every row key is unique. */
  lemma ToggleRowKeysUnique(list: seq<string>, accessories: map<string, bool>)
    requires NoDuplicates(list)
    ensures forall i, j :: 0 <= i < j < |list| ==>
      ToggleRows(list, accessories)[i].id != ToggleRows(list, accessories)[j].id
  {
  }

  /** The label carried by each default accessory is the one the label lookup gives its id. */
  lemma DefaultCaptionsMatchLabels()
    ensures forall i :: 0 <= i < |DefaultAccessories| ==>
      AccessoryLabel(DefaultAccessories[i].id) == DefaultAccessories[i].caption
  {
  }

  class Panel {
    /** The accessory keys reported by `accessoryFound` events, in order of first report. */
    var detectedAccessories: seq<string>
    /** The selected model scale, as its `toString` text. */
    var currentScale: string

    ghost predicate Valid()
      reads this
    {
      NoDuplicates(detectedAccessories)
    }

    constructor ()
      ensures Valid()
      ensures detectedAccessories == [] && currentScale == InitialScale
    {
      detectedAccessories := [];
      currentScale := InitialScale;
    }

    /** The `accessoryFound` handler: records the key unless it is already listed. */
    method HandleAccessoryFound(key: string)
      requires Valid()
      modifies this`detectedAccessories
      ensures Valid()
      ensures detectedAccessories == AddIfAbsent(old(detectedAccessories), key)
    {
      detectedAccessories := AddIfAbsent(detectedAccessories, key);
    }

    /**
     * One run of the initialisation effect against the store's `accessories`
     * as this render saw them: returns, in call order, the ids passed to
     * `toggleAccessory`, which are exactly the displayed ids with no entry,
     * each once.
     */
    method RunAccessoryInitialisation(accessories: map<string, bool>) returns (toggled: seq<string>)
      requires Valid()
      ensures toggled == MissingIds(DisplayedAccessories(detectedAccessories), accessories)
      ensures forall x :: multiset(toggled)[x] ==
                          (if x in DisplayedAccessories(detectedAccessories) && x !in accessories then 1 else 0)
    {
      if |detectedAccessories| == 0 {
        toggled := ToggleMissing(DefaultIds(), accessories);
      } else {
        toggled := ToggleMissing(detectedAccessories, accessories);
      }
      forall x ensures multiset(toggled)[x] ==
        (if x in DisplayedAccessories(detectedAccessories) && x !in accessories then 1 else 0)
      {
        MissingIdsOnce(DisplayedAccessories(detectedAccessories), accessories, x);
      }
    }

    /** Sends the keys of `events`, in order, to the `accessoryFound` handler. */
    method ReportAccessories(events: seq<string>)
      requires Valid() && detectedAccessories == []
      modifies this`detectedAccessories
      ensures Valid()
      ensures detectedAccessories == DetectAll(events)
    {
      var i := 0;
      while i < |events|
        invariant 0 <= i <= |events|
        invariant Valid()
        invariant detectedAccessories == DetectAll(events[..i])
      {
        assert events[..i + 1] == events[..i] + [events[i]];
        DetectStep(events[..i], events[i]);
        HandleAccessoryFound(events[i]);
        i := i + 1;
      }
      assert events[..i] == events;
    }

    /** A scale preset button: selects that preset's scale. */
    method SelectScalePreset(i: nat)
      requires i < |ScalePresets|
      modifies this`currentScale
      ensures currentScale == ScalePresets[i].scale
    {
      currentScale := ScalePresets[i].scale;
    }

    /**
     * The scale effect: overwrites the page's `scale` parameter with the
     * current scale and reports whether the page reloads.
     */
    method SyncScaleParam(url: PageUrl) returns (reload: bool)
      modifies url
      ensures ScaleSync(url.params, reload) == ScaleEffect(old(url.params), currentScale)
      ensures url.params[ScaleKey] == currentScale
      ensures reload <==> ScaleKey in old(url.params) && old(url.params)[ScaleKey] != currentScale
    {
      var sync := ScaleEffect(url.params, currentScale);
      url.params := sync.params;
      reload := sync.reload;
    }
  }
}
