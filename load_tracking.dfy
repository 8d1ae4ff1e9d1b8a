/** The load-tracking step (`load_img`) as functions on `WorldState`: for
    each widget whose configuration changed, resolve its source to a
    handle, move the widget between registry buckets when the handle
    changed, mirror the handle on the companion surface, and either show
    the surface and announce the load, or hide it and clear the size. */
module LoadTracking {
  import opened Prelude
  import opened AssetSources
  import opened ImgModes
  import opened ImgEvents
  import opened ImgState

  /** The handle a source resolves to: the empty path binds no asset, a
      non-empty path is handed to the asset server's `load`, a handle is
      used as it is. */
  function Resolve(src: AssetSource, load: string -> Handle): (h: Handle)
    ensures src.Path? && src.path == "" ==> h == DefaultHandle
    ensures src.Path? && src.path != "" ==> h == load(src.path)
    ensures src.HandleRef? ==> h == src.handle
  {
    match src
    case Path(s) => if s == "" then DefaultHandle else load(s)
    case HandleRef(h) => h
  }

  /** The default source binds no asset, so a widget built without a
      `src` parameter stays at its default handle and is never rebound. */
  lemma FreshWidgetStaysUnbound(mode: Option<ImgMode>, modulate: Option<Color>, surface: Entity, load: string -> Handle)
    ensures Resolve(DefaultSource(), load) == DefaultHandle
    ensures !Rebinds(FromParams(None, mode, modulate, surface), load)
  {
  }

  /** The widget's source no longer resolves to the handle it is bound to. */
  predicate Rebinds(img: Img, load: string -> Handle) {
    Resolve(img.src, load) != img.handle
  }

  /** Remove `e` from the bucket of `from` and insert it in the bucket of
      `to`, creating either bucket if it is missing. */
  function Rebind(reg: Registry, e: Entity, from: Handle, to: Handle): (r: Registry)
    requires from != to
    ensures r.Keys == reg.Keys + {from, to}
  {
    var r1 := reg[from := Bucket(reg, from) - {e}];
    r1[to := Bucket(r1, to) + {e}]
  }

  /** After `Rebind`, `e` sits in the bucket of `to` and in no bucket of
      `from`; every other membership is unchanged. */
  lemma RebindBucket(reg: Registry, e: Entity, from: Handle, to: Handle, x: Entity, h: Handle)
    requires from != to
    ensures x in Bucket(Rebind(reg, e, from, to), h) <==>
      if x == e then h == to || (h != from && x in Bucket(reg, h)) else x in Bucket(reg, h)
  {
  }

  /** The widget after the step: bound to the resolved handle, and with
      its size cleared when that handle's asset is not present. */
  function BoundImg(img: Img, load: string -> Handle, assets: map<Handle, Vec2>): (r: Img)
    ensures SameConfig(r, img) && r.handle == Resolve(img.src, load)
    ensures r.size == if r.handle in assets then img.size else Zero
  {
    var h := Resolve(img.src, load);
    if h in assets then img.(handle := h) else img.(handle := h, size := Zero)
  }

  /** The companion surface after the step: it shows handle `h`, and is
      displayed exactly when `h`'s asset is present. */
  function BoundSurface(surface: Surface, h: Handle, assets: map<Handle, Vec2>): (r: Surface)
    ensures r.image == h
    ensures r.style.display == Flex <==> h in assets
    ensures r.style == surface.style.(display := r.style.display)
  {
    surface.(image := h, style := surface.style.(display := if h in assets then Flex else Hidden))
  }

  /** The signals sent for entity `e`: `Unloaded` when it leaves a present
      asset, then `Loaded` when its new handle is present. */
  function EntitySignals(e: Entity, img: Img, load: string -> Handle, assets: map<Handle, Vec2>): (r: seq<ImgEvent>)
    ensures Unloaded([e]) in r <==> Rebinds(img, load) && img.handle in assets
    ensures Loaded([e]) in r <==> Resolve(img.src, load) in assets
    ensures |r| <= 2 && forall ev | ev in r :: Sources(ev) == [e]
  {
    (if Rebinds(img, load) && img.handle in assets then [Unloaded([e])] else [])
    + (if Resolve(img.src, load) in assets then [Loaded([e])] else [])
  }

  /** The size refresh forced for a widget whose asset is already present. */
  function EntityEvents(img: Img, load: string -> Handle, assets: map<Handle, Vec2>): (r: seq<AssetEvent>)
    ensures r == [] <==> Resolve(img.src, load) !in assets
    ensures |r| <= 1 && forall ev | ev in r :: ev == Modified(Resolve(img.src, load))
  {
    var h := Resolve(img.src, load);
    if h in assets then [Modified(h)] else []
  }

  /** Every widget in `changed` can be processed: it has an `Img`, and its
      surface has the components the step writes. */
  predicate LoadReady(st: WorldState, changed: seq<Entity>) {
    forall e | e in changed :: e in st.imgs && st.imgs[e].surface in st.surfaces
  }

  /** One iteration of `load_img`'s loop, for widget `e`. */
  function LoadOne(st: WorldState, e: Entity, load: string -> Handle, assets: map<Handle, Vec2>): (r: WorldState)
    requires e in st.imgs && st.imgs[e].surface in st.surfaces
    ensures r.imgs.Keys == st.imgs.Keys && r.surfaces.Keys == st.surfaces.Keys
  {
    var img := st.imgs[e];
    var h := Resolve(img.src, load);
    st.(registry := if h != img.handle then Rebind(st.registry, e, img.handle, h) else st.registry,
        imgs := st.imgs[e := BoundImg(img, load, assets)],
        surfaces := st.surfaces[img.surface := BoundSurface(st.surfaces[img.surface], h, assets)],
        signals := st.signals + EntitySignals(e, img, load, assets),
        assetEvents := st.assetEvents + EntityEvents(img, load, assets))
  }

  /** One iteration binds widget `e` to its resolved handle, points its
      surface at that handle, appends the widget's own signals and forced
      refresh, rebinds it in the registry exactly when its handle changes,
      and leaves every other widget alone. */
  lemma LoadOneEffect(st: WorldState, e: Entity, load: string -> Handle, assets: map<Handle, Vec2>)
    requires e in st.imgs && st.imgs[e].surface in st.surfaces
    ensures var r, img := LoadOne(st, e, load, assets), st.imgs[e];
      && r.imgs[e] == BoundImg(img, load, assets)
      && (forall x | x in st.imgs && x != e :: r.imgs[x] == st.imgs[x])
      && r.surfaces[img.surface] == BoundSurface(st.surfaces[img.surface], Resolve(img.src, load), assets)
      && (forall s | s in st.surfaces && s != img.surface :: r.surfaces[s] == st.surfaces[s])
      && (Rebinds(img, load) ==>
            e in Bucket(r.registry, Resolve(img.src, load)) && e !in Bucket(r.registry, img.handle))
      && (!Rebinds(img, load) ==> r.registry == st.registry)
      && r.signals == st.signals + EntitySignals(e, img, load, assets)
      && r.assetEvents == st.assetEvents + EntityEvents(img, load, assets)
  {
    var img := st.imgs[e];
    if Rebinds(img, load) {
      RebindBucket(st.registry, e, img.handle, Resolve(img.src, load), e, Resolve(img.src, load));
      RebindBucket(st.registry, e, img.handle, Resolve(img.src, load), e, img.handle);
    }
  }

  /** `load_img` over the changed widgets, in iteration order. */
  function LoadAll(st: WorldState, changed: seq<Entity>, load: string -> Handle, assets: map<Handle, Vec2>): (r: WorldState)
    requires LoadReady(st, changed)
    ensures r.imgs.Keys == st.imgs.Keys && r.surfaces.Keys == st.surfaces.Keys
    ensures forall e | e in st.imgs :: r.imgs[e].surface == st.imgs[e].surface
    decreases |changed|
  {
    if changed == [] then st
    else
      var mid := LoadAll(st, changed[..|changed| - 1], load, assets);
      LoadOne(mid, changed[|changed| - 1], load, assets)
  }

  /** One more widget of `changed` extends the fold by one `LoadOne`, on a
      widget that is still present with its surface. */
  lemma LoadAllStep(st: WorldState, changed: seq<Entity>, i: nat, load: string -> Handle, assets: map<Handle, Vec2>)
    requires LoadReady(st, changed) && i < |changed|
    ensures LoadReady(st, changed[..i]) && LoadReady(st, changed[..i + 1])
    ensures var mid := LoadAll(st, changed[..i], load, assets);
      changed[i] in mid.imgs && mid.imgs[changed[i]].surface in mid.surfaces &&
      LoadAll(st, changed[..i + 1], load, assets) == LoadOne(mid, changed[i], load, assets)
  {
    assert changed[..i + 1][..i] == changed[..i];
  }

  /** The signals of the whole step, each widget judged by its state
      before the step. */
  function ExpectedSignals(imgs: map<Entity, Img>, changed: seq<Entity>, load: string -> Handle, assets: map<Handle, Vec2>): seq<ImgEvent>
    requires forall e | e in changed :: e in imgs
    decreases |changed|
  {
    if changed == [] then []
    else
      var e := changed[|changed| - 1];
      ExpectedSignals(imgs, changed[..|changed| - 1], load, assets) + EntitySignals(e, imgs[e], load, assets)
  }

  /** The forced size refreshes of the whole step, judged the same way. */
  function ExpectedEvents(imgs: map<Entity, Img>, changed: seq<Entity>, load: string -> Handle, assets: map<Handle, Vec2>): seq<AssetEvent>
    requires forall e | e in changed :: e in imgs
    decreases |changed|
  {
    if changed == [] then []
    else
      var e := changed[|changed| - 1];
      ExpectedEvents(imgs, changed[..|changed| - 1], load, assets) + EntityEvents(imgs[e], load, assets)
  }

  /** Each changed widget ends bound to the handle its source resolves to
      (with its size cleared if that asset is absent); every other widget
      is untouched. */
  lemma {:induction false} LoadAllImgs(st: WorldState, changed: seq<Entity>, load: string -> Handle, assets: map<Handle, Vec2>, e: Entity)
    requires LoadReady(st, changed) && Distinct(changed) && e in st.imgs
    ensures LoadAll(st, changed, load, assets).imgs[e] ==
      if e in changed then BoundImg(st.imgs[e], load, assets) else st.imgs[e]
  {
    if changed != [] {
      var p, x := changed[..|changed| - 1], changed[|changed| - 1];
      assert x !in p;
      LoadAllImgs(st, p, load, assets, e);
      if e != x {
        assert e in changed <==> e in p;
      } else {
        LoadAllImgs(st, p, load, assets, x);
      }
    }
  }

  /** The surfaces of the changed widgets. */
  function SurfacesOf(imgs: map<Entity, Img>, changed: seq<Entity>): set<Entity> {
    set e | e in changed && e in imgs :: imgs[e].surface
  }

  /** The surface of each changed widget mirrors its resolved handle and is
      shown exactly when that asset is present; no other surface changes. */
  lemma {:induction false} LoadAllSurfaces(st: WorldState, changed: seq<Entity>, load: string -> Handle, assets: map<Handle, Vec2>, s: Entity)
    requires LoadReady(st, changed) && Distinct(changed) && SurfacesDistinct(st.imgs) && s in st.surfaces
    ensures forall e | e in changed && st.imgs[e].surface == s ::
      LoadAll(st, changed, load, assets).surfaces[s] == BoundSurface(st.surfaces[s], Resolve(st.imgs[e].src, load), assets)
    ensures s !in SurfacesOf(st.imgs, changed) ==> LoadAll(st, changed, load, assets).surfaces[s] == st.surfaces[s]
  {
    if changed != [] {
      var p, x := changed[..|changed| - 1], changed[|changed| - 1];
      assert x !in p;
      LoadAllSurfaces(st, p, load, assets, s);
      LoadAllImgs(st, p, load, assets, x);
      var mid := LoadAll(st, p, load, assets);
      if st.imgs[x].surface == s {
        assert s !in SurfacesOf(st.imgs, p);
      } else {
        assert s in SurfacesOf(st.imgs, changed) <==> s in SurfacesOf(st.imgs, p);
      }
    }
  }

  /** The registry after the step depends only on the registry and on the
      widgets' state before the step: each changed widget, in turn, is
      rebound from its old handle to its resolved one when they differ. */
  function RegistryAfter(reg: Registry, imgs: map<Entity, Img>, changed: seq<Entity>, load: string -> Handle): Registry
    requires forall e | e in changed :: e in imgs
    decreases |changed|
  {
    if changed == [] then reg
    else
      var y := changed[|changed| - 1];
      var mid := RegistryAfter(reg, imgs, changed[..|changed| - 1], load);
      var to := Resolve(imgs[y].src, load);
      if to != imgs[y].handle then Rebind(mid, y, imgs[y].handle, to) else mid
  }

  /** Registry effect of the step: a changed widget whose handle changed is
      now in exactly the bucket of its new handle; every other membership
      is as before. */
  lemma LoadAllRegistry(st: WorldState, changed: seq<Entity>, load: string -> Handle, assets: map<Handle, Vec2>, x: Entity, h: Handle)
    requires LoadReady(st, changed) && Distinct(changed) && Consistent(st.registry, st.imgs)
    ensures x in Bucket(LoadAll(st, changed, load, assets).registry, h) <==>
      if x in changed && Rebinds(st.imgs[x], load) then h == Resolve(st.imgs[x].src, load)
      else x in Bucket(st.registry, h)
  {
    LoadAllRegistryFold(st, changed, load, assets);
    RegistryAfterMembership(st.registry, st.imgs, changed, load, x, h);
  }

  /** The step's registry is `RegistryAfter` of the registry before it. */
  lemma {:induction false} LoadAllRegistryFold(st: WorldState, changed: seq<Entity>, load: string -> Handle, assets: map<Handle, Vec2>)
    requires LoadReady(st, changed) && Distinct(changed)
    ensures LoadAll(st, changed, load, assets).registry == RegistryAfter(st.registry, st.imgs, changed, load)
  {
    if changed != [] {
      LoadAllRegistryFold(st, changed[..|changed| - 1], load, assets);
      LastRegistry(st, changed, load, assets);
    }
  }

  /** Membership in `RegistryAfter`, by induction over the changed widgets. */
  lemma {:induction false} RegistryAfterMembership(reg: Registry, imgs: map<Entity, Img>, changed: seq<Entity>, load: string -> Handle, x: Entity, h: Handle)
    requires forall e | e in changed :: e in imgs
    requires Distinct(changed) && Consistent(reg, imgs)
    ensures x in Bucket(RegistryAfter(reg, imgs, changed, load), h) <==>
      if x in changed && Rebinds(imgs[x], load) then h == Resolve(imgs[x].src, load)
      else x in Bucket(reg, h)
  {
    if changed != [] {
      var p, y := changed[..|changed| - 1], changed[|changed| - 1];
      var mid := RegistryAfter(reg, imgs, p, load);
      var to := Resolve(imgs[y].src, load);
      RebindMembership(RegistryAfter(reg, imgs, changed, load), mid, y, imgs[y].handle, to, x, h);
      RegistryAfterMembership(reg, imgs, p, load, x, h);
      assert x in changed <==> x in p || x == y;
      if x == y {
        assert x !in p;
        assert x in Bucket(reg, h) ==> h == imgs[y].handle by {
          if x in Bucket(reg, h) { assert x in reg[h]; }
        }
      }
    }
  }

  /** The last widget of `changed` is rebound from the handle it had
      before the step. */
  lemma LastRegistry(st: WorldState, changed: seq<Entity>, load: string -> Handle, assets: map<Handle, Vec2>)
    requires LoadReady(st, changed) && Distinct(changed) && changed != []
    ensures var p, y := changed[..|changed| - 1], changed[|changed| - 1];
      var mid, img := LoadAll(st, p, load, assets).registry, st.imgs[y];
      var to := Resolve(img.src, load);
      LoadAll(st, changed, load, assets).registry == if to != img.handle then Rebind(mid, y, img.handle, to) else mid
  {
    var p, y := changed[..|changed| - 1], changed[|changed| - 1];
    assert y !in p;
    LoadAllImgs(st, p, load, assets, y);
  }

  /** Membership after one iteration's (possible) rebinding of `y`. */
  lemma RebindMembership(r: Registry, mid: Registry, y: Entity, from: Handle, to: Handle, x: Entity, h: Handle)
    requires r == if to != from then Rebind(mid, y, from, to) else mid
    ensures x != y || to == from ==> (x in Bucket(r, h) <==> x in Bucket(mid, h))
    ensures x == y && to != from ==> (x in Bucket(r, h) <==> h == to || (h != from && x in Bucket(mid, h)))
  {
    if to != from {
      RebindBucket(mid, y, from, to, x, h);
    }
  }

  /** The step keeps the registry invariants: each live widget sits only
      in the bucket of its current handle, a widget with a non-zero size
      is registered under its handle, and surfaces stay distinct. */
  lemma LoadAllValid(st: WorldState, changed: seq<Entity>, load: string -> Handle, assets: map<Handle, Vec2>)
    requires LoadReady(st, changed) && Distinct(changed) && Valid(st)
    ensures Valid(LoadAll(st, changed, load, assets))
  {
    var r := LoadAll(st, changed, load, assets);
    forall h, x | h in r.registry && x in r.registry[h] && x in r.imgs
      ensures r.imgs[x].handle == h
    {
      LoadAllImgs(st, changed, load, assets, x);
      LoadAllRegistry(st, changed, load, assets, x, h);
      assert x in Bucket(r.registry, h);
      if !(x in changed && Rebinds(st.imgs[x], load)) {
        assert x in st.registry[h];
      }
    }
    forall x | x in r.imgs && r.imgs[x].size != Zero
      ensures x in Bucket(r.registry, r.imgs[x].handle)
    {
      LoadAllImgs(st, changed, load, assets, x);
      LoadAllRegistry(st, changed, load, assets, x, r.imgs[x].handle);
    }
  }

  /** The signals the step sends are those of each changed widget, judged
      by its own state before the step, in iteration order. */
  lemma {:induction false} LoadAllSignals(st: WorldState, changed: seq<Entity>, load: string -> Handle, assets: map<Handle, Vec2>)
    requires LoadReady(st, changed) && Distinct(changed)
    ensures LoadAll(st, changed, load, assets).signals == st.signals + ExpectedSignals(st.imgs, changed, load, assets)
  {
    if changed != [] {
      var p, x := changed[..|changed| - 1], changed[|changed| - 1];
      LoadAllSignals(st, p, load, assets);
      LastSignals(st, changed, load, assets);
      var earlier, own := ExpectedSignals(st.imgs, p, load, assets), EntitySignals(x, st.imgs[x], load, assets);
      AppendAssoc(st.signals, earlier, own);
    }
  }

  /** The last widget of `changed` appends its own signals, judged by its
      state before the step. */
  lemma LastSignals(st: WorldState, changed: seq<Entity>, load: string -> Handle, assets: map<Handle, Vec2>)
    requires LoadReady(st, changed) && Distinct(changed) && changed != []
    ensures var p, x := changed[..|changed| - 1], changed[|changed| - 1];
      LoadAll(st, changed, load, assets).signals == LoadAll(st, p, load, assets).signals + EntitySignals(x, st.imgs[x], load, assets)
  {
    var p, x := changed[..|changed| - 1], changed[|changed| - 1];
    assert x !in p;
    LoadAllImgs(st, p, load, assets, x);
  }

  /** Likewise the forced size refreshes are those of each changed widget,
      in iteration order. */
  lemma {:induction false} LoadAllEvents(st: WorldState, changed: seq<Entity>, load: string -> Handle, assets: map<Handle, Vec2>)
    requires LoadReady(st, changed) && Distinct(changed)
    ensures LoadAll(st, changed, load, assets).assetEvents == st.assetEvents + ExpectedEvents(st.imgs, changed, load, assets)
  {
    if changed != [] {
      var p, x := changed[..|changed| - 1], changed[|changed| - 1];
      LoadAllEvents(st, p, load, assets);
      LastEvents(st, changed, load, assets);
      AppendAssoc(st.assetEvents, ExpectedEvents(st.imgs, p, load, assets), EntityEvents(st.imgs[x], load, assets));
    }
  }

  /** The last widget of `changed` appends its own forced size refresh. */
  lemma LastEvents(st: WorldState, changed: seq<Entity>, load: string -> Handle, assets: map<Handle, Vec2>)
    requires LoadReady(st, changed) && Distinct(changed) && changed != []
    ensures var p, x := changed[..|changed| - 1], changed[|changed| - 1];
      LoadAll(st, changed, load, assets).assetEvents == LoadAll(st, p, load, assets).assetEvents + EntityEvents(st.imgs[x], load, assets)
  {
    var p, x := changed[..|changed| - 1], changed[|changed| - 1];
    assert x !in p;
    LoadAllImgs(st, p, load, assets, x);
  }

  /** `Unloaded` is sent for a widget exactly when it changed, its handle
      changed, and the old handle's asset was present; `Loaded` exactly
      when it changed and its resolved handle's asset is present. */
  lemma {:induction false} ExpectedSignalsFor(imgs: map<Entity, Img>, changed: seq<Entity>, load: string -> Handle, assets: map<Handle, Vec2>, e: Entity)
    requires forall x | x in changed :: x in imgs
    ensures Unloaded([e]) in ExpectedSignals(imgs, changed, load, assets) <==>
      e in changed && Rebinds(imgs[e], load) && imgs[e].handle in assets
    ensures Loaded([e]) in ExpectedSignals(imgs, changed, load, assets) <==>
      e in changed && Resolve(imgs[e].src, load) in assets
  {
    if changed != [] {
      var p, x := changed[..|changed| - 1], changed[|changed| - 1];
      ExpectedSignalsFor(imgs, p, load, assets, e);
      assert e in changed <==> e in p || e == x;
      var sig := EntitySignals(x, imgs[x], load, assets);
      assert Unloaded([e]) in sig <==> e == x && Rebinds(imgs[x], load) && imgs[x].handle in assets;
      assert Loaded([e]) in sig <==> e == x && Resolve(imgs[x].src, load) in assets;
    }
  }

  /** The step forces a size refresh only as `Modified`, and for a handle
      exactly when some changed widget resolves to it and it is present. */
  lemma {:induction false} ExpectedEventsFor(imgs: map<Entity, Img>, changed: seq<Entity>, load: string -> Handle, assets: map<Handle, Vec2>, ev: AssetEvent)
    requires forall x | x in changed :: x in imgs
    ensures ev in ExpectedEvents(imgs, changed, load, assets) <==>
      ev.Modified? && ev.handle in assets && exists e | e in changed :: Resolve(imgs[e].src, load) == ev.handle
  {
    if changed != [] {
      var p, x := changed[..|changed| - 1], changed[|changed| - 1];
      ExpectedEventsFor(imgs, p, load, assets, ev);
      if ev.Modified? && ev.handle in assets && Resolve(imgs[x].src, load) == ev.handle {
        assert ev in EntityEvents(imgs[x], load, assets);
      }
      if exists e | e in changed :: Resolve(imgs[e].src, load) == ev.handle {
        var e :| e in changed && Resolve(imgs[e].src, load) == ev.handle;
        if e != x { assert e in p; }
      }
    }
  }
}
