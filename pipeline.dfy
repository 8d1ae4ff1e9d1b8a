/** One pass of the pipeline, load tracking followed by size update, and
    what it guarantees about the cached size of each changed widget. */
module Pipeline {
  import opened Prelude
  import opened ImgState
  import opened LoadTracking
  import opened SizeUpdate

  /** Load tracking for `changed`, then the size update over every pending
      asset event, the forced refreshes included. */
  function LoadThenSize(st: WorldState, changed: seq<Entity>, load: string -> Handle, assets: map<Handle, Vec2>): (r: WorldState)
    requires LoadReady(st, changed)
    ensures var loaded := LoadAll(st, changed, load, assets);
      && r.imgs.Keys == st.imgs.Keys
      && r.surfaces == loaded.surfaces && r.signals == loaded.signals
      && r.registry == loaded.registry - RemovedHandles(loaded.assetEvents)
  {
    var loaded := LoadAll(st, changed, load, assets);
    ApplySizeEvents(loaded, loaded.assetEvents, assets)
  }

  /** After a pass, a changed widget whose asset is absent has size zero;
      one whose asset is present has that asset's size, provided the pass
      saw no removal of it and the widget is registered under it (always
      so when its handle just changed). */
  lemma PassSize(st: WorldState, changed: seq<Entity>, load: string -> Handle, assets: map<Handle, Vec2>, e: Entity)
    requires Valid(st) && LoadReady(st, changed) && Distinct(changed) && e in changed
    ensures var h := Resolve(st.imgs[e].src, load);
      var r := LoadThenSize(st, changed, load, assets);
      && (h !in assets ==> r.imgs[e].size == Zero)
      && (h in assets && Removed(h) !in st.assetEvents && (Rebinds(st.imgs[e], load) || e in Bucket(st.registry, h)) ==>
            r.imgs[e].size == assets[h])
  {
    var h := Resolve(st.imgs[e].src, load);
    var loaded := LoadAll(st, changed, load, assets);
    LoadAllValid(st, changed, load, assets);
    LoadAllImgs(st, changed, load, assets, e);
    assert loaded.imgs[e] == BoundImg(st.imgs[e], load, assets);
    if h !in assets {
      AbsentStaysZero(loaded, loaded.assetEvents, assets, e);
    } else if Removed(h) !in st.assetEvents && (Rebinds(st.imgs[e], load) || e in Bucket(st.registry, h)) {
      LoadAllEvents(st, changed, load, assets);
      ExpectedEventsFor(st.imgs, changed, load, assets, Modified(h));
      ExpectedEventsFor(st.imgs, changed, load, assets, Removed(h));
      assert Modified(h) in loaded.assetEvents;
      assert Removed(h) !in loaded.assetEvents;
      LoadAllRegistry(st, changed, load, assets, e, h);
      RefreshSetsSize(loaded, loaded.assetEvents, assets, e);
    }
  }

  /** As written, a removal is final for the widgets bound to the handle:
      if the asset is removed and then created again in the same batch of
      events, the widgets that were registered under it keep size zero. */
  lemma RecreatedAssetNotRefreshed(st: WorldState, assets: map<Handle, Vec2>, h: Handle, e: Entity)
    requires Consistent(st.registry, st.imgs)
    requires e in st.imgs && e in Bucket(st.registry, h) && h in assets
    ensures ApplySizeEvents(st, [Removed(h), Created(h)], assets).imgs[e].size == Zero
  {
    RemovedIsFinal(st, [Removed(h), Created(h)], assets, h, e);
  }
}
