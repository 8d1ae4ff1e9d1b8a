# Image widget of belly, modelled in Dafny

This project models the `<img>` widget of the belly UI toolkit for Bevy
(`crates/belly_widgets/src/img.rs`). The widget shows an image from an
`AssetSource`, which is either a path or a handle already held. It sizes the
image in its box according to an `ImgMode`: `fit`, `cover`, `stretch` or
`source`. Each widget entity carries an `Img` component and owns a
companion surface entity that holds the `UiImage` and the `Style` that are
actually rendered. Three systems run every frame, in this order:

1. `load_img` resolves the source of every widget whose `Img` changed. It
   moves the widget between the buckets of the process-wide `ImageRegistry`
   (handle to set of widget entities) when its handle changes. It mirrors
   the handle on the surface, then either shows the surface, forces a size
   refresh and sends a `Loaded` signal, or hides the surface and clears the
   cached size. It sends `Unloaded` when a widget leaves an asset that is
   present.
2. `update_img_size` replays the asset store's lifecycle events, including
   the `Modified` events that `load_img` has just forced. `Removed`
   drops the handle's bucket and zeroes the sizes of its widgets.
   `Created` and `Modified` copy the asset's size into the widgets of the
   handle's bucket.
3. `update_img_layout` computes the surface's size, minimum size and
   margins from the image's intrinsic size, the widget node's size and the
   mode.

The modules follow the parts of the file:

- `Prelude`: entity ids, handles, `Vec2`, `AssetEvent`, and the style
  fields the widget writes.
- `ImgModes`: `ImgMode` and its parsing.
- `AssetSources`: `AssetSource`.
- `ImgEvents`: the `ImgEvent` signal.
- `ImgState`: the `Img` record, the registry and their invariants.
- `LoadTracking`: `load_img` as functions on a world state.
- `SizeUpdate`: `update_img_size` as functions on a world state.
- `ImgLayout`: the layout geometry.
- `Pipeline`: a load step followed by a size step.
- `Widgets`: the class `ImgWorld`. Its fields are the ECS state, and the
  three systems are methods with loops. Each method is proved to compute
  the function of `LoadTracking`, `SizeUpdate` or `ImgLayout`.

The registry invariant `Valid` has three parts:

- a live widget sits only in the bucket of its current handle;
- a widget with a non-zero cached size is registered under its handle;
- widgets have distinct surfaces.

Both the load step and the size step preserve it.

Two details of the code shape the model:

- `update_img_size` also edits the registry. `registry.remove` (line 292)
  drops the bucket of a removed handle, so a later `Created(h)` or
  `Modified(h)` no longer reaches the widgets still bound to `h`
  (`Pipeline.RecreatedAssetNotRefreshed`).
- `update_img_layout` sizes the image against the `Node` of the widget
  entity itself (line 311), so `UpdateImgLayout` takes the node sizes of
  the widget entities.

Engine services are parameters:

- The asset server's `load` is a function `string -> Handle`.
- The asset store is a map from present handles to image sizes.
- Change detection (`Changed<Img>`, `Changed<Node>`) is the sequence of
  entities a system visits, in the order the query yields them.

## Model

| member | source | states |
|---|---|---|
| ImgModes.ParseMode | crates/belly_widgets/src/img.rs:120-132 | "" and "fit" give `Fit`; "cover", "stretch" and "source" give their mode; each of these holds in both directions. Any other text is an error whose message contains that text. |
| ImgModes.TryFromString | crates/belly_widgets/src/img.rs:134-139 | Converting a `String` gives the same result as parsing it. |
| ImgModes.ParseModeName | crates/belly_widgets/src/img.rs:120-132 | Parsing a mode's canonical name gives that mode back (round trip). |
| ImgModes.ParseOkIsName | crates/belly_widgets/src/img.rs:120-132 | A successful parse read either the canonical name of its result or the empty string for the default mode. |
| ImgModes.ParseIsCaseSensitive | crates/belly_widgets/src/img.rs:123-129 | Matching is exact: "Fit" and "COVER" are rejected. |
| ImgModes.ParseErrorDeterminesInput | crates/belly_widgets/src/img.rs:129 | Two rejected inputs with the same error message are the same input. |
| AssetSources.DefaultSource | crates/belly_widgets/src/img.rs:162-166 | The default source is the empty path. |
| AssetSources.FromString | crates/belly_widgets/src/img.rs:178-182 | Converting text gives a path holding exactly that text. |
| AssetSources.FromHandle | crates/belly_widgets/src/img.rs:184-188 | Converting a handle gives a handle source holding exactly that handle. |
| AssetSources.SourceEq | crates/belly_widgets/src/img.rs:168-176 | The equality holds exactly when both sources are the same variant with equal contents. A path never equals a handle. |
| AssetSources.SourceEqIsEquivalence | crates/belly_widgets/src/img.rs:168-176 | The equality is reflexive, symmetric and transitive. |
| AssetSources.ConversionsSeparate | crates/belly_widgets/src/img.rs:162-188 | Both `From` conversions are injective. A converted path never equals a converted handle. The default source is not the default handle. |
| ImgEvents.IsLoaded | crates/belly_widgets/src/img.rs:82-87 | True exactly for `Loaded`. |
| ImgEvents.IsUnloaded | crates/belly_widgets/src/img.rs:89-94 | True exactly for `Unloaded`. |
| ImgEvents.Sources | crates/belly_widgets/src/img.rs:97-103 | The entities the signal was built with. |
| ImgEvents.SignalKinds | crates/belly_widgets/src/img.rs:81-103 | Every signal is exactly one of loaded and unloaded. Its sources are its entities for both kinds. |
| ImgState.FromParams | crates/belly_widgets/src/img.rs:222-233 | A new `Img` takes each given parameter and defaults the others: the empty path, `Fit`, white. It starts at the default handle with zero size and its fresh surface entity. |
| LoadTracking.Resolve | crates/belly_widgets/src/img.rs:245-249 | The empty path gives the default handle. A non-empty path gives `load(path)`. A handle is used as it is. |
| LoadTracking.FreshWidgetStaysUnbound | crates/belly_widgets/src/img.rs:225-246 | A widget built without `src` resolves to its own default handle, so load tracking never rebinds it. |
| LoadTracking.Rebind | crates/belly_widgets/src/img.rs:254-261 | After moving a widget, the registry has both buckets and no other new key. |
| LoadTracking.RebindBucket | crates/belly_widgets/src/img.rs:254-261 | After moving, the entity is in the new handle's bucket and in no bucket of the old handle. Every other membership is unchanged. |
| LoadTracking.BoundImg | crates/belly_widgets/src/img.rs:250-278 | The widget keeps its configuration and is bound to the resolved handle. Its size is cleared exactly when that asset is absent. |
| LoadTracking.BoundSurface | crates/belly_widgets/src/img.rs:264-279 | The surface shows the resolved handle. It is displayed exactly when the asset is present. The rest of its style is untouched. |
| LoadTracking.EntitySignals | crates/belly_widgets/src/img.rs:251-273 | A widget's iteration sends `Unloaded` exactly when its handle changes away from a present asset, and `Loaded` exactly when its resolved asset is present. It sends at most two signals, each naming only that widget. |
| LoadTracking.EntityEvents | crates/belly_widgets/src/img.rs:270-272 | A widget's iteration forces no event when its resolved asset is absent, and otherwise exactly one `Modified` of the resolved handle. |
| LoadTracking.LoadOne | crates/belly_widgets/src/img.rs:245-279 | One iteration keeps the sets of widgets and surfaces. |
| LoadTracking.LoadOneEffect | crates/belly_widgets/src/img.rs:245-279 | One iteration binds the widget to its resolved handle and mirrors that on its surface, touching no other widget or surface. A widget whose handle changed is now in the new bucket and not the old one; otherwise the registry is unchanged. The widget's own signals and forced events are appended. |
| LoadTracking.LoadAll | crates/belly_widgets/src/img.rs:244-280 | The load step keeps the sets of widgets and surfaces. It keeps each widget's surface. |
| LoadTracking.LoadAllStep | crates/belly_widgets/src/img.rs:244 | One more visited widget extends the step by one iteration on a widget that is still present with its surface. |
| LoadTracking.LoadAllImgs | crates/belly_widgets/src/img.rs:244-278 | Each changed widget ends bound to its resolved handle, with its size cleared if that asset is absent. Every other widget is untouched. |
| LoadTracking.LoadAllSurfaces | crates/belly_widgets/src/img.rs:264-279 | The surface of each changed widget mirrors its handle and is shown exactly when the asset is present. No other surface changes. |
| LoadTracking.LoadAllRegistry | crates/belly_widgets/src/img.rs:250-263 | A changed widget whose handle changed is afterwards exactly in its new handle's bucket. Every other membership is as before. |
| LoadTracking.LoadAllValid | crates/belly_widgets/src/img.rs:244-280 | The load step preserves the registry invariant `Valid`. |
| LoadTracking.LoadAllSignals | crates/belly_widgets/src/img.rs:251-273 | The signals sent are each changed widget's own signals, in visiting order, judged by its state before the step. |
| LoadTracking.LoadAllEvents | crates/belly_widgets/src/img.rs:267-272 | The forced size refreshes are each changed widget's own refresh, in visiting order. |
| LoadTracking.ExpectedSignalsFor | crates/belly_widgets/src/img.rs:250-274 | `Unloaded` is sent for a widget exactly when it changed, its handle changed and the old asset was present. `Loaded` is sent exactly when it changed and its new asset is present. |
| LoadTracking.ExpectedEventsFor | crates/belly_widgets/src/img.rs:267-272 | The step forces exactly `Modified(h)` for each changed widget whose resolved handle `h` is present, and never `Created` or `Removed`. |
| SizeUpdate.WithSize | crates/belly_widgets/src/img.rs:293-304 | Setting a bucket's size keeps every widget's configuration and handle. The widgets in the bucket get the new size; the others keep theirs. No widget is added. |
| SizeUpdate.SizeEvent | crates/belly_widgets/src/img.rs:290-306 | One event changes only sizes and the registry. `Removed` drops the handle's bucket and zeroes its widgets. `Created` and `Modified` give the bucket's widgets the asset's size when the asset is present and change nothing otherwise. A handle without a bucket changes nothing. |
| SizeUpdate.ApplySizeEvents | crates/belly_widgets/src/img.rs:289-307 | The size step changes only sizes and the registry. The registry loses exactly the buckets of the removed handles. |
| SizeUpdate.ApplySizeEventsUntouched | crates/belly_widgets/src/img.rs:289-307 | A widget in no bucket named by an event keeps its state. |
| SizeUpdate.RemovedIsFinal | crates/belly_widgets/src/img.rs:291-297 | Once its handle is removed, a registered widget ends with size zero whatever events follow. |
| SizeUpdate.RemovedZeroesBound | crates/belly_widgets/src/img.rs:291-297 | After `Removed(h)`, every widget bound to `h` has size zero, registered or not. |
| SizeUpdate.UnregisteredUntouched | crates/belly_widgets/src/img.rs:289-307 | A widget missing from its own handle's bucket is reached by no size event and keeps its state. |
| SizeUpdate.RefreshSetsSize | crates/belly_widgets/src/img.rs:298-305 | A registered widget whose present asset is created or modified, and never removed, ends with the asset's size. |
| SizeUpdate.AbsentUnchanged | crates/belly_widgets/src/img.rs:298-305 | A widget whose asset is absent keeps its whole state when its handle is not removed. |
| SizeUpdate.AbsentStaysZero | crates/belly_widgets/src/img.rs:298-305 | A widget with zero size whose asset is absent keeps size zero. |
| SizeUpdate.SizeEventValid | crates/belly_widgets/src/img.rs:290-306 | One event preserves the registry invariant. |
| SizeUpdate.ApplySizeEventsValid | crates/belly_widgets/src/img.rs:289-307 | The size step preserves the registry invariant. |
| Pipeline.LoadThenSize | crates/belly_widgets/src/img.rs:24-29 | A pass keeps the set of widgets. The surfaces and signals are those of the load step. The registry is the load step's, minus the buckets of the handles removed in the pending events. |
| Pipeline.PassSize | crates/belly_widgets/src/img.rs:24-29 | After load tracking and then the size update, a changed widget has size zero if its asset is absent. It has the asset's size if the asset is present, was not removed, and the widget is registered under it. |
| Pipeline.RecreatedAssetNotRefreshed | crates/belly_widgets/src/img.rs:291-305 | `Removed(h)` followed by `Created(h)` in one batch leaves the widgets of `h` at size zero. |
| ImgLayout.LayoutStyle | crates/belly_widgets/src/img.rs:316-409 | The surface is shown exactly when neither size is degenerate. A degenerate size only hides it and leaves the rest of its style alone. |
| ImgLayout.FitBox | crates/belly_widgets/src/img.rs:329-349 | The fitted box matches the node on at least one side. |
| ImgLayout.CoverBox | crates/belly_widgets/src/img.rs:362-382 | The covering box matches the node on at least one side. |
| ImgLayout.LayoutVisibility | crates/belly_widgets/src/img.rs:316-325 | The surface is shown exactly when no dimension of the image or node is within `f32::EPSILON` of zero. When hidden, nothing else is written. |
| ImgLayout.FitBoxGeometry | crates/belly_widgets/src/img.rs:328-349 | For positive sizes, the fitted box is positive and inside the node. It keeps the image's aspect ratio and touches the node on a side. |
| ImgLayout.CoverBoxGeometry | crates/belly_widgets/src/img.rs:362-382 | For positive sizes, the covering box covers the node. It keeps the image's aspect ratio and matches the node on a side. |
| ImgLayout.LayoutFit | crates/belly_widgets/src/img.rs:328-359 | `fit`: the size equals the minimum size and is the fitted box. Equal, non-negative opposite margins centre it exactly in the node. |
| ImgLayout.LayoutCover | crates/belly_widgets/src/img.rs:361-393 | `cover`: the size is the covering box. Equal, non-positive opposite margins centre its overflow. |
| ImgLayout.LayoutStretch | crates/belly_widgets/src/img.rs:395-399 | `stretch`: 100% by 100%, no minimum size, zero margins, whatever the image's size. |
| ImgLayout.LayoutSource | crates/belly_widgets/src/img.rs:400-409 | `source`: the image's own size, as size and minimum size. Equal margins centre it, going negative when the image is larger than the node. |
| ImgLayout.FitExample | crates/belly_widgets/src/img.rs:328-359 | A 100x100 image fitted in a 200x100 node gives a 100x100 box with side margins of 50. |
| ImgLayout.CoverExample | crates/belly_widgets/src/img.rs:361-393 | The same image covering the same node gives a 200x200 box with vertical margins of -50. |
| ImgLayout.SourceExample | crates/belly_widgets/src/img.rs:400-409 | A 300x50 image at source size in a 200x100 node gets margins of -50 and 25. |
| ImgLayout.ZeroWidthExample | crates/belly_widgets/src/img.rs:316-322 | A node of width zero hides the surface and leaves the rest of its style alone. |
| Widgets.ImgWorld.constructor | crates/belly_widgets/src/img.rs:222-233 | A world of freshly built widgets with distinct surfaces and an empty registry satisfies `Valid`. |
| Widgets.ImgWorld.SetSource | crates/belly_widgets/src/img.rs:214 | Assigning the public `src` of one widget changes only that field and keeps `Valid`. |
| Widgets.ImgWorld.SetMode | crates/belly_widgets/src/img.rs:215 | Assigning the public `mode` of one widget changes only that field and keeps `Valid`. |
| Widgets.ImgWorld.LoadImg | crates/belly_widgets/src/img.rs:235-280 | The loop over the changed widgets leaves the world in the state `LoadTracking.LoadAll` describes, and keeps `Valid`. |
| Widgets.ImgWorld.LoadNext | crates/belly_widgets/src/img.rs:244-280 | One iteration advances the world from the step's state after `i` widgets to its state after `i + 1`. |
| Widgets.ImgWorld.LoadEntity | crates/belly_widgets/src/img.rs:245-279 | The loop body for one widget computes one iteration of the load step. |
| Widgets.ImgWorld.BindHandle | crates/belly_widgets/src/img.rs:250-263 | When the handle changed, the widget moves to the new bucket and takes the handle. `Unloaded` is sent if the old asset is present. |
| Widgets.ImgWorld.ShowHandle | crates/belly_widgets/src/img.rs:264-279 | The surface mirrors the handle. A present asset shows it, forces `Modified` and sends `Loaded`. An absent one hides it and zeroes the size. |
| Widgets.ImgWorld.AssignSizes | crates/belly_widgets/src/img.rs:293-304 | The inner loops of the `Removed` and `Created`/`Modified` arms set the size of every live widget of a bucket, and of nothing else. |
| Widgets.ImgWorld.UpdateImgSize | crates/belly_widgets/src/img.rs:283-308 | Consuming the pending asset events leaves the world as `SizeUpdate.ApplySizeEvents` describes, with the queue emptied. It keeps `Valid`. |
| Widgets.ImgWorld.UpdateImgLayout | crates/belly_widgets/src/img.rs:310-412 | Each visited widget with a node and a surface gets the style `LayoutStyle` computes. Every other surface is unchanged. |
| Widgets.ImgWorld.Frame | crates/belly_widgets/src/img.rs:19-36 | Running the three systems in plugin order keeps `Valid`. The registry, widgets and signals are those of `Pipeline.LoadThenSize`. Each changed widget's size obeys `Pipeline.PassSize`. Each laid-out widget's surface gets `LayoutStyle` of the pass's surface, from the sizes after the size step. Every other surface is as the pass left it. |

## Left out

- The `Variant` conversions of `ImgMode` and `AssetSource` (lines 141-152 and 190-210) are left out. They depend on belly's dynamic `Variant` type and on downcasting, which are not part of this model.
- Plugin registration, system labels and event registration (lines 18-37 and 65-70) are left out. Only their ordering is kept, in `Widgets.ImgWorld.Frame`.
- The widget builder `ImgWidget` (lines 39-63) is left out. It builds the ECS hierarchy and the markup bindings, which are outside this model.
- The reading of `src`, `mode` and `modulate` from the element parameters is reduced to optional values in `ImgState.FromParams`. Spawning the surface entity is reduced to its id.
- Bevy's change detection is left out. Each system takes the entities it visits as a sequence.
- The asset server and the asset store are left out. They are a `load` function and a map from present handles to image sizes.
- Despawning entities is not modelled. `Consistent` speaks only of bucket members that are still widgets, so despawned entities may linger in buckets, as they do in the code.
- The registry invariant is one-directional because the code lets a widget hold a handle without being in its bucket. A widget built without `src` keeps `Handle::default()` and is never inserted (lines 228 and 250; `LoadTracking.FreshWidgetStaysUnbound`). `registry.remove` (line 292) drops a bucket while its widgets keep the handle (`Pipeline.RecreatedAssetNotRefreshed`).
- The tint `modulate` is only stored. Rendering is not modelled.
- `ImgLayout.LayoutStyle` computes over exact reals, not `f32`. Rounding, infinities and NaN are not modelled. The `f32::EPSILON` guard keeps its exact value 2^-23.
- `ImgLayout.FitBoxGeometry`, `ImgLayout.CoverBoxGeometry`, `ImgLayout.LayoutFit` and `ImgLayout.LayoutCover` are proved for positive sizes only. For negative sizes (possible in the code's `f32` arithmetic) the functions still follow the code, but no geometric property is claimed.
- `ImgModes.TryFromString` is stated as equal to `ParseMode`, because the code only delegates to it.
- LoadTracking.LoadAll: assumes every changed widget's surface carries a `UiImage` and a `Style` (the precondition `st.imgs[e].surface in st.surfaces`). The panic of `images.get_mut(img.entity).unwrap()` (line 264) on a surface without them is not modelled.
- Widgets.ImgWorld.LoadImg: has the same precondition as `LoadTracking.LoadAll`, that every changed widget's surface is present. The `unwrap` panic at line 264 is not modelled.
