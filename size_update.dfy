/** The size-update step (`update_img_size`) as functions on `WorldState`:
    asset lifecycle events are applied in order; `Removed` drops the
    handle's bucket and clears the size of its widgets, `Created` and
    `Modified` copy the present asset's size into its widgets. */
module SizeUpdate {
  import opened Prelude
  import opened ImgState

  /** The widgets of `imgs` with their size set to `s` for those in `es`;
      entities of `es` without an `Img` are skipped. */
  function WithSize(imgs: map<Entity, Img>, es: set<Entity>, s: Vec2): (r: map<Entity, Img>)
    ensures r.Keys == imgs.Keys
    ensures forall e | e in imgs ::
      && SameConfig(r[e], imgs[e]) && r[e].handle == imgs[e].handle
      && r[e].size == if e in es then s else imgs[e].size
  {
    map e | e in imgs :: if e in es then imgs[e].(size := s) else imgs[e]
  }

  /** One event of `update_img_size`'s loop. A handle without a bucket is
      skipped; so are `Created`/`Modified` of an asset that is not present. */
  function SizeEvent(st: WorldState, ev: AssetEvent, assets: map<Handle, Vec2>): (r: WorldState)
    ensures r.surfaces == st.surfaces && r.signals == st.signals && r.assetEvents == st.assetEvents
    ensures r.registry == if ev.Removed? then st.registry - {ev.handle} else st.registry
    ensures r.imgs.Keys == st.imgs.Keys
    ensures forall e | e in st.imgs ::
      r.imgs[e] == if e in Bucket(st.registry, ev.handle) && (ev.Removed? || ev.handle in assets)
        then st.imgs[e].(size := if ev.Removed? then Zero else assets[ev.handle])
        else st.imgs[e]
  {
    var h := ev.handle;
    if h !in st.registry then st
    else if ev.Removed? then st.(registry := st.registry - {h}, imgs := WithSize(st.imgs, st.registry[h], Zero))
    else if h in assets then st.(imgs := WithSize(st.imgs, st.registry[h], assets[h]))
    else st
  }

  /** The handles named by a `Removed` event of `events`. */
  function RemovedHandles(events: seq<AssetEvent>): set<Handle> {
    set i | 0 <= i < |events| && events[i].Removed? :: events[i].handle
  }

  /** `update_img_size` over the pending events, in order. Only sizes and
      the registry change, and the registry loses exactly the buckets of
      the removed handles. */
  function ApplySizeEvents(st: WorldState, events: seq<AssetEvent>, assets: map<Handle, Vec2>): (r: WorldState)
    ensures r.imgs.Keys == st.imgs.Keys
    ensures forall e | e in st.imgs :: SameConfig(r.imgs[e], st.imgs[e]) && r.imgs[e].handle == st.imgs[e].handle
    ensures r.surfaces == st.surfaces && r.signals == st.signals && r.assetEvents == st.assetEvents
    ensures r.registry == st.registry - RemovedHandles(events)
    decreases |events|
  {
    if events == [] then st
    else
      var p := events[..|events| - 1];
      var mid := ApplySizeEvents(st, p, assets);
      assert RemovedHandles(events) == RemovedHandles(p) + if events[|events| - 1].Removed? then {events[|events| - 1].handle} else {};
      SizeEvent(mid, events[|events| - 1], assets)
  }

  /** A widget in no bucket named by any event keeps its state. */
  lemma {:induction false} ApplySizeEventsUntouched(st: WorldState, events: seq<AssetEvent>, assets: map<Handle, Vec2>, e: Entity)
    requires e in st.imgs
    requires forall k :: 0 <= k < |events| ==> e !in Bucket(st.registry, events[k].handle)
    ensures ApplySizeEvents(st, events, assets).imgs[e] == st.imgs[e]
  {
    if events != [] {
      var p, ev := events[..|events| - 1], events[|events| - 1];
      ApplySizeEventsUntouched(st, p, assets, e);
      assert e !in Bucket(st.registry, ev.handle);
    }
  }

  /** Once `Removed(h)` has been seen, every live widget that was in `h`'s
      bucket ends with size zero, whatever follows: the bucket is gone, so
      a later `Created(h)` or `Modified(h)` no longer reaches it. */
  lemma {:induction false} RemovedIsFinal(st: WorldState, events: seq<AssetEvent>, assets: map<Handle, Vec2>, h: Handle, e: Entity)
    requires Consistent(st.registry, st.imgs)
    requires e in st.imgs && e in Bucket(st.registry, h)
    requires Removed(h) in events
    ensures ApplySizeEvents(st, events, assets).imgs[e].size == Zero
  {
    var p, ev := events[..|events| - 1], events[|events| - 1];
    var mid := ApplySizeEvents(st, p, assets);
    assert e in st.registry[h];
    if Removed(h) in p {
      RemovedIsFinal(st, p, assets, h, e);
      assert h in RemovedHandles(p) by {
        var i :| 0 <= i < |p| && p[i] == Removed(h);
      }
    } else {
      assert ev == Removed(h);
      assert h !in RemovedHandles(p);
    }
  }

  /** A widget missing from its own handle's bucket is in no bucket at
      all, so no size event reaches it. */
  lemma {:induction false} UnregisteredUntouched(st: WorldState, events: seq<AssetEvent>, assets: map<Handle, Vec2>, e: Entity)
    requires Consistent(st.registry, st.imgs)
    requires e in st.imgs && e !in Bucket(st.registry, st.imgs[e].handle)
    ensures ApplySizeEvents(st, events, assets).imgs[e] == st.imgs[e]
  {
    if events != [] {
      var p, ev := events[..|events| - 1], events[|events| - 1];
      var mid := ApplySizeEvents(st, p, assets);
      UnregisteredUntouched(st, p, assets, e);
      assert e !in Bucket(mid.registry, ev.handle);
    }
  }

  /** Removing an asset resets every widget bound to its handle, whether
      or not it is registered: an unregistered one already has size zero
      by `SizeTracked`, and no event reaches it. */
  lemma RemovedZeroesBound(st: WorldState, events: seq<AssetEvent>, assets: map<Handle, Vec2>, h: Handle, e: Entity)
    requires Valid(st) && e in st.imgs && st.imgs[e].handle == h && Removed(h) in events
    ensures ApplySizeEvents(st, events, assets).imgs[e].size == Zero
  {
    if e in Bucket(st.registry, h) {
      RemovedIsFinal(st, events, assets, h, e);
    } else {
      UnregisteredUntouched(st, events, assets, e);
    }
  }

  /** A widget registered under its handle `h`, whose asset is present,
      ends with that asset's size when the events refresh `h` and never
      remove it. */
  lemma {:induction false} RefreshSetsSize(st: WorldState, events: seq<AssetEvent>, assets: map<Handle, Vec2>, e: Entity)
    requires Consistent(st.registry, st.imgs)
    requires e in st.imgs && e in Bucket(st.registry, st.imgs[e].handle)
    requires st.imgs[e].handle in assets
    requires Removed(st.imgs[e].handle) !in events
    requires Created(st.imgs[e].handle) in events || Modified(st.imgs[e].handle) in events
    ensures ApplySizeEvents(st, events, assets).imgs[e].size == assets[st.imgs[e].handle]
  {
    var h := st.imgs[e].handle;
    var p, ev := events[..|events| - 1], events[|events| - 1];
    var mid := ApplySizeEvents(st, p, assets);
    assert h in mid.registry && e in mid.registry[h];
    if ev != Created(h) && ev != Modified(h) {
      assert Created(h) in p || Modified(h) in p;
      RefreshSetsSize(st, p, assets, e);
    }
  }

  /** The size events keep the registry invariants. */
  lemma {:induction false} ApplySizeEventsValid(st: WorldState, events: seq<AssetEvent>, assets: map<Handle, Vec2>)
    requires Valid(st)
    ensures Valid(ApplySizeEvents(st, events, assets))
  {
    if events != [] {
      var p, ev := events[..|events| - 1], events[|events| - 1];
      var mid := ApplySizeEvents(st, p, assets);
      ApplySizeEventsValid(st, p, assets);
      SizeEventValid(mid, ev, assets);
    }
  }

  /** One size event keeps the registry invariants. */
  lemma SizeEventValid(st: WorldState, ev: AssetEvent, assets: map<Handle, Vec2>)
    requires Valid(st)
    ensures Valid(SizeEvent(st, ev, assets))
  {
    var r := SizeEvent(st, ev, assets);
    var h := ev.handle;
    forall e | e in r.imgs && r.imgs[e].size != Zero
      ensures e in Bucket(r.registry, r.imgs[e].handle)
    {
      if h in st.registry && e in st.registry[h] {
        assert st.imgs[e].handle == h;
      }
    }
  }

  /** A widget whose handle's asset is absent keeps its whole state, as
      long as that handle is not removed: `Created`/`Modified` of an absent
      asset change nothing, and no other bucket holds the widget. */
  lemma {:induction false} AbsentUnchanged(st: WorldState, events: seq<AssetEvent>, assets: map<Handle, Vec2>, e: Entity)
    requires Consistent(st.registry, st.imgs)
    requires e in st.imgs && st.imgs[e].handle !in assets && Removed(st.imgs[e].handle) !in events
    ensures ApplySizeEvents(st, events, assets).imgs[e] == st.imgs[e]
  {
    if events != [] {
      var p, ev := events[..|events| - 1], events[|events| - 1];
      var mid := ApplySizeEvents(st, p, assets);
      AbsentUnchanged(st, p, assets, e);
      var k := ev.handle;
      if k in mid.registry && e in mid.registry[k] {
        assert e in st.registry[k];
      }
    }
  }

  /** A widget whose size is zero and whose handle's asset is absent keeps
      a zero size: `Created`/`Modified` of its handle skip absent assets,
      and no other bucket holds it. */
  lemma {:induction false} AbsentStaysZero(st: WorldState, events: seq<AssetEvent>, assets: map<Handle, Vec2>, e: Entity)
    requires Consistent(st.registry, st.imgs)
    requires e in st.imgs && st.imgs[e].size == Zero && st.imgs[e].handle !in assets
    ensures ApplySizeEvents(st, events, assets).imgs[e].size == Zero
  {
    if events != [] {
      var p, ev := events[..|events| - 1], events[|events| - 1];
      var mid := ApplySizeEvents(st, p, assets);
      AbsentStaysZero(st, p, assets, e);
      var k := ev.handle;
      if !ev.Removed? && k in mid.registry && e in mid.registry[k] {
        assert e in st.registry[k];
      }
    }
  }
}
