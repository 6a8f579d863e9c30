# Product configurator controls panel — accessory and scale bookkeeping

This project models the logic of the product configurator's controls panel
(`components/ControlsUI.tsx`). The panel lets a user customise a 3D product.
The model covers the parts of it that decide things:

- **Accessory labels.** Each accessory toggle gets a label. A well-known id
  has a fixed label (`wheel` is "Wheels", `light` is "Extra Lights", …). Any
  other id becomes a label through a chain of steps: blank every character
  that is not an ASCII letter or digit, blank `_`, split on spaces,
  upper-case the first character of each word, and join with spaces. The chain
  is modelled step by step (`AccessoryLabels.Split`, `Join`,
  `CapitalizeWords`, …). It is then proved equal to a position-by-position
  reference (`ExpectedLabelChar`).
- **Detected accessories.** The 3D model component reports accessories through
  `accessoryFound` events. The panel appends a key only when it is not yet
  listed, so the list has no duplicates and only grows.
- **Displayed accessories.** The panel shows the detected list. When that list
  is empty, it shows the five default ids `wheel`, `spoiler`, `rim`, `bumper`,
  `wing`.
- **Initialisation pass.** For each displayed id that the configuration store's
  `accessories` map lacks, the panel calls `toggleAccessory`. The model returns
  the ids of those calls, in call order.
- **Checkbox state.** A checkbox shows the stored flag, or unticked when the
  id has no entry.
- **Scale parameter.** The page URL's `scale` query parameter is always
  overwritten with the current scale. The page reloads only when a previous
  parameter existed and differed from it.

Modules: `Wrappers` holds an `Option` type and a map lookup. `AccessoryLabels`
covers label generation. `Accessories` holds the list bookkeeping and the
checkbox state. `ScaleParam` covers the URL parameter. `ControlsUI` holds the
`Panel` class with the component's own state (`detectedAccessories`,
`currentScale`) and its event handlers and effects.

A scale is represented by the text that `Number.prototype.toString` gives for
it: the initial 2.0 is `"2"`, and the presets are `"1"`, `"0.5"`, `"0.1"`,
`"0.01"` and `"2"`. That text is all the scale effect compares.

The configuration store is modelled only through what the panel reads. The
panel passes its `accessories` map in as a parameter. `toggleAccessory` is an
opaque call, so the initialisation pass returns the sequence of ids it would
toggle. The pass tests each id against the map as that render saw it, because
the effect closes over the render's `accessories` value. The panel never
registers accessories itself; during the initialisation pass it calls
`toggleAccessory` only for ids that have no entry. It takes any accessory key
unchanged, and the label code handles any string.

## Model

| member | source | states |
|---|---|---|
| `AccessoryLabels.AccessoryLabel` | components/ControlsUI.tsx:130-143 | An id in the label table gets exactly its fixed label. Any other id gets a label of the same length: a space exactly where the id has no ASCII letter or digit, an upper-cased letter at the start of each word, and every other letter or digit unchanged. |
| `AccessoryLabels.GeneratedLabelAt` | components/ControlsUI.tsx:137-142 | At each position, the replace/split/capitalise/join chain yields the reference character `ExpectedLabelChar`, and the label is as long as the id. |
| `AccessoryLabels.GeneratedLabelShape` | components/ControlsUI.tsx:137-142 | The same as the previous row, for all positions at once. |
| `AccessoryLabels.CapitalizedJoin` | components/ControlsUI.tsx:140-142 | Splitting on spaces, capitalising each word and joining upper-cases exactly the first character and each character after a space. |
| `AccessoryLabels.CapitalizedAt` | components/ControlsUI.tsx:140-142 | The position-by-position meaning of "upper-case at the start and after each space", with the length preserved. |
| `AccessoryLabels.SplitJoinRoundTrip` | components/ControlsUI.tsx:140-142 | `split(sep)` followed by `join(sep)` gives the text back, and no piece contains the separator. |
| `Accessories.AddIfAbsent` | components/ControlsUI.tsx:76-81 | The key ends up in the list. The old list stays as a prefix. The list grows by one exactly when the key was absent. Its elements are the old ones plus the key. Freedom from duplicates is preserved. |
| `Accessories.DetectAllSpec` | components/ControlsUI.tsx:73-82 | After any sequence of `accessoryFound` events, the list has no duplicates and holds exactly the reported keys. |
| `Accessories.DetectAllGrows` | components/ControlsUI.tsx:76-81 | Later events never remove or reorder an entry: the earlier list is a prefix of the later one. |
| `Accessories.DisplayedAccessories` | components/ControlsUI.tsx:125-127 | The displayed list is the detected list when that is non-empty. Otherwise it is `["wheel","spoiler","rim","bumper","wing"]` in that order. It has no duplicates when the detected list has none. |
| `Accessories.MissingIds` | components/ControlsUI.tsx:92-108 | The ids to toggle: each id with no entry in `accessories` appears as often as in the list, and an id with an entry never appears. |
| `Accessories.ToggleMissing` | components/ControlsUI.tsx:102-106 | The `forEach` loop calls `toggleAccessory` in list order for exactly the ids with no entry. |
| `Accessories.MissingIdsOnce` | components/ControlsUI.tsx:92-108 | On a duplicate-free list, each listed id with no entry is toggled exactly once, and every other id zero times. |
| `Accessories.InitialisationSettles` | components/ControlsUI.tsx:92-108 | Suppose the store afterwards keeps its old entries and has an entry for every toggled id. Then the next run of the pass toggles nothing. |
| `Accessories.IsChecked` | components/ControlsUI.tsx:254 | A checkbox is ticked exactly when the id has an entry and that entry is `true`. An absent id shows unticked. |
| `ScaleParam.ScaleEffect` | components/ControlsUI.tsx:111-122 | The `scale` parameter becomes the current scale and no other parameter changes. A reload happens exactly when a previous `scale` parameter existed and differed. |
| `ScaleParam.ScaleEffectSettles` | components/ControlsUI.tsx:112-121 | The first write, on a page without the parameter, never reloads. Running the effect again with the same scale neither reloads nor changes the parameters. |
| `ControlsUI.ToggleRows` | components/ControlsUI.tsx:249-262 | There is one row per displayed id, in order. Each row carries that id, the checkbox state of that id, and the label `AccessoryLabel` gives for it. |
| `ControlsUI.ToggleRowKeysUnique` | components/ControlsUI.tsx:249-250 | Rows built from a duplicate-free list have distinct ids, which are their React keys. |
| `ControlsUI.DefaultCaptionsMatchLabels` | components/ControlsUI.tsx:15-35 | Each default accessory's own label field equals the label that the label lookup gives its id. The panel never reads that field: it keeps only the ids and takes every caption from the label lookup. |
| `ControlsUI.Panel.constructor` | components/ControlsUI.tsx:50-54 | The panel starts with no detected accessories and the scale `"2"`. |
| `ControlsUI.Panel.HandleAccessoryFound` | components/ControlsUI.tsx:73-82 | The new detected list is the dedup-append of the key. The panel's duplicate-free invariant is kept. |
| `ControlsUI.Panel.ReportAccessories` | components/ControlsUI.tsx:73-82 | A panel with no detected accessories, sent the keys of a sequence of events in order, ends with exactly the list `DetectAll` gives for those events, so `DetectAllSpec` and `DetectAllGrows` hold of the panel's state. |
| `ControlsUI.Panel.RunAccessoryInitialisation` | components/ControlsUI.tsx:92-108 | Both branches of the effect toggle, in order, the displayed ids that have no entry. Each is toggled exactly once. An id that has an entry is never toggled. |
| `ControlsUI.Panel.SelectScalePreset` | components/ControlsUI.tsx:155-158 | A preset button sets the current scale to that preset's value. |
| `ControlsUI.Panel.SyncScaleParam` | components/ControlsUI.tsx:111-122 | The URL's `scale` parameter becomes the current scale, and the method reports a reload exactly when a different previous value existed. The result is tied to `ScaleEffect`. |

## Left out

- `components/SnapshotButton.tsx`: the snapshot button only drives the renderer and a browser download.
- The configuration store (`useConfiguratorStore`) is not part of this model. `toggleAccessory` is an opaque call. The material setters are left out: the colour picker forwards its `onChange` value to `setColor`, the metalness and roughness sliders forward `parseFloat` of their input value, and the four material preset buttons forward constants.
- Reading the initial scale from the URL (`parseFloat`/`isNaN`), highlighting the active preset by float equality, and the `toFixed` displays: these are floating-point behaviour.
- Registering and removing the `accessoryFound` listener, `history.replaceState`, `location.reload`, the clipboard, the colour picker and all markup and styling are browser I/O. The model keeps only their data: the URL's parameters become a `PageUrl` object, and the reload becomes a returned flag.
- The checkbox's click handler (`onChange={() => toggleAccessory(accessory)}`, components/ControlsUI.tsx:255) is a plain store call on every click, for any displayed id, and is not modelled.
- React's scheduling of effects and state updates (when an effect runs, batching of updates) is not modelled. Each effect is one explicit method call on the state it would see.
- `AccessoryLabels.AccessoryLabel`: looks the id up among the table's ten own entries only. In JavaScript, an id that names an inherited `Object.prototype` member (`toString`, `constructor`) also yields a truthy value. Strings are sequences of characters rather than UTF-16 code units, so a character outside the Basic Multilingual Plane counts as one position, not two.
- `Accessories.IsChecked`: models `accessories` as a dictionary of own keys. An id naming an inherited `Object.prototype` member is not modelled.
- `Accessories.MissingIds` (and with it `Accessories.ToggleMissing` and `ControlsUI.Panel.RunAccessoryInitialisation`): models `accessories` as a dictionary of own keys. For an id naming an inherited `Object.prototype` member (`constructor`, `__proto__`), the JavaScript test `accessories[id] === undefined` is false and nothing is toggled, whereas the model toggles it. The keys the 3D model component reports are lower-case and contain an accessory keyword, so they never take these names.
- `ControlsUI.Panel.SyncScaleParam`: the query string is modelled as a map from names to values. Repeated `scale` parameters and parameter order are not modelled.
