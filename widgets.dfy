/** The image widget's three per-frame systems as methods of one world
    object: `LoadImg` (`load_img`), `UpdateImgSize` (`update_img_size`) and
    `UpdateImgLayout` (`update_img_layout`), each proved against the
    functions of `LoadTracking`, `SizeUpdate` and `ImgLayout`. */
module Widgets {
  import opened Prelude
  import opened ImgModes
  import opened AssetSources
  import opened ImgEvents
  import ImgState
  import opened LoadTracking
  import opened SizeUpdate
  import opened ImgLayout
  import opened Pipeline

  type Img = ImgState.Img
  type Surface = ImgState.Surface
  type WorldState = ImgState.WorldState

  /** A widget takes part in layout: it has an `Img`, a node size, and its
      surface has a style to write. */
  predicate Laid(imgs: map<Entity, Img>, surfaces: map<Entity, Surface>, nodes: map<Entity, Vec2>, e: Entity) {
    e in imgs && e in nodes && imgs[e].surface in surfaces
  }

  /** The surfaces that layout writes for the widgets in `dirty`. */
  function LaidSurfaces(imgs: map<Entity, Img>, surfaces: map<Entity, Surface>, nodes: map<Entity, Vec2>, dirty: seq<Entity>): set<Entity> {
    set e | e in dirty && Laid(imgs, surfaces, nodes, e) :: imgs[e].surface
  }

  /** The ECS state the image widget's systems share. */
  class ImgWorld {
    /** `ImageRegistry`. */
    var registry: ImgState.Registry
    /** The `Img` component of each widget entity. */
    var imgs: map<Entity, Img>
    /** The `UiImage` and `Style` of each companion surface entity. */
    var surfaces: map<Entity, Surface>
    /** The `ImgEvent` signals sent so far. */
    var signals: seq<ImgEvent>
    /** The `AssetEvent<Image>` queue the size update reads. */
    var assetEvents: seq<AssetEvent>

    function State(): WorldState
      reads this
    {
      ImgState.WorldState(registry, imgs, surfaces, signals, assetEvents)
    }

    ghost predicate Valid()
      reads this
    {
      ImgState.Valid(State())
    }

    /** A world whose widgets were just built: every `Img` is at the default
        handle with a zero size, each has its own surface, and the registry
        starts empty. */
    constructor (widgets: map<Entity, Img>, companions: map<Entity, Surface>)
      requires forall e | e in widgets :: widgets[e].handle == DefaultHandle && widgets[e].size == Zero
      requires ImgState.SurfacesDistinct(widgets)
      ensures Valid()
      ensures State() == ImgState.WorldState(map[], widgets, companions, [], [])
    {
      registry := map[];
      imgs := widgets;
      surfaces := companions;
      signals := [];
      assetEvents := [];
    }

    /** Assign the public `src` field of widget `e`. */
    method SetSource(e: Entity, src: AssetSource)
      requires Valid() && e in imgs
      modifies this`imgs
      ensures Valid()
      ensures imgs == old(imgs)[e := old(imgs)[e].(src := src)]
    {
      imgs := imgs[e := imgs[e].(src := src)];
    }

    /** Assign the public `mode` field of widget `e`. */
    method SetMode(e: Entity, mode: ImgMode)
      requires Valid() && e in imgs
      modifies this`imgs
      ensures Valid()
      ensures imgs == old(imgs)[e := old(imgs)[e].(mode := mode)]
    {
      imgs := imgs[e := imgs[e].(mode := mode)];
    }

    /** `load_img` over the widgets whose configuration changed, in the
        order the query yields them. `load` is the asset server's `load`,
        `assets` the present images and their sizes. */
    method LoadImg(changed: seq<Entity>, load: string -> Handle, assets: map<Handle, Vec2>)
      requires Valid() && Distinct(changed) && LoadReady(State(), changed)
      modifies this
      ensures Valid()
      ensures State() == LoadAll(old(State()), changed, load, assets)
    {
      var i := 0;
      while i < |changed|
        invariant 0 <= i <= |changed|
        invariant State() == LoadAll(old(State()), changed[..i], load, assets)
      {
        LoadNext(changed, i, load, assets, old(State()));
        i := i + 1;
      }
      assert changed[..i] == changed;
      LoadAllValid(old(State()), changed, load, assets);
    }

    /** The `i`-th iteration of `load_img`'s loop. */
    method LoadNext(changed: seq<Entity>, i: nat, load: string -> Handle, assets: map<Handle, Vec2>, ghost start: WorldState)
      requires LoadReady(start, changed) && i < |changed|
      requires State() == LoadAll(start, changed[..i], load, assets)
      modifies this
      ensures State() == LoadAll(start, changed[..i + 1], load, assets)
    {
      LoadAllStep(start, changed, i, load, assets);
      LoadEntity(changed[i], load, assets);
    }

    /** The body of `load_img`'s loop for widget `entity`. */
    method LoadEntity(entity: Entity, load: string -> Handle, assets: map<Handle, Vec2>)
      requires entity in imgs && imgs[entity].surface in surfaces
      modifies this
      ensures State() == LoadOne(old(State()), entity, load, assets)
    {
      var handle := Resolve(imgs[entity].src, load);
      BindHandle(entity, handle, assets);
      ShowHandle(entity, handle, assets);
    }

    /** Move widget `entity` to the registry bucket of `handle` when it is
        bound to another handle, announcing that it leaves a present asset. */
    method BindHandle(entity: Entity, handle: Handle, assets: map<Handle, Vec2>)
      requires entity in imgs
      modifies this`registry, this`imgs, this`signals
      ensures var prior := old(imgs)[entity].handle;
        registry == (if handle != prior then Rebind(old(registry), entity, prior, handle) else old(registry)) &&
        imgs == old(imgs)[entity := old(imgs)[entity].(handle := handle)] &&
        signals == old(signals) + (if handle != prior && prior in assets then [Unloaded([entity])] else [])
    {
      var img := imgs[entity];
      if handle != img.handle {
        if img.handle in assets {
          signals := signals + [Unloaded([entity])];
        }
        registry := registry[img.handle := ImgState.Bucket(registry, img.handle) - {entity}];
        registry := registry[handle := ImgState.Bucket(registry, handle) + {entity}];
        imgs := imgs[entity := imgs[entity].(handle := handle)];
      }
    }

    /** Point widget `entity`'s surface at `handle`; show it and force a size
        refresh when the asset is present, otherwise hide it and clear the
        widget's size. */
    method ShowHandle(entity: Entity, handle: Handle, assets: map<Handle, Vec2>)
      requires entity in imgs && imgs[entity].surface in surfaces
      modifies this`imgs, this`surfaces, this`assetEvents, this`signals
      ensures var s := old(imgs)[entity].surface;
        imgs == (if handle in assets then old(imgs) else old(imgs)[entity := old(imgs)[entity].(size := Zero)]) &&
        surfaces == old(surfaces)[s := BoundSurface(old(surfaces)[s], handle, assets)] &&
        assetEvents == old(assetEvents) + (if handle in assets then [Modified(handle)] else []) &&
        signals == old(signals) + (if handle in assets then [Loaded([entity])] else [])
    {
      var img := imgs[entity];
      var surface := surfaces[img.surface];
      surface := surface.(image := handle);
      if handle in assets {
        surface := surface.(style := surface.style.(display := Flex));
        assetEvents := assetEvents + [Modified(handle)];
        signals := signals + [Loaded([entity])];
      } else {
        if imgs[entity].size != Zero {
          imgs := imgs[entity := imgs[entity].(size := Zero)];
        }
        surface := surface.(style := surface.style.(display := Hidden));
      }
      surfaces := surfaces[img.surface := surface];
    }

    /** Set the size of every widget of `entities` that still exists. */
    method AssignSizes(entities: set<Entity>, size: Vec2)
      modifies this`imgs
      ensures imgs == WithSize(old(imgs), entities, size)
    {
      var rest := entities;
      while rest != {}
        invariant rest <= entities
        invariant imgs == WithSize(old(imgs), entities - rest, size)
        decreases rest
      {
        var entity :| entity in rest;
        if entity in imgs {
          imgs := imgs[entity := imgs[entity].(size := size)];
        }
        rest := rest - {entity};
      }
    }

    /** `update_img_size`: apply and consume the pending asset events. */
    method UpdateImgSize(assets: map<Handle, Vec2>)
      requires Valid()
      modifies this
      ensures Valid()
      ensures State() == ApplySizeEvents(old(State()), old(assetEvents), assets).(assetEvents := [])
    {
      var events := assetEvents;
      var i := 0;
      while i < |events|
        invariant 0 <= i <= |events|
        invariant State() == ApplySizeEvents(old(State()), events[..i], assets)
      {
        var handle := events[i].handle;
        if handle in registry {
          var entities := registry[handle];
          if events[i].Removed? {
            registry := registry - {handle};
            AssignSizes(entities, Zero);
          } else if handle in assets {
            AssignSizes(entities, assets[handle]);
          }
        }
        assert events[..i + 1][..i] == events[..i];
        i := i + 1;
      }
      assert events[..i] == events;
      ApplySizeEventsValid(old(State()), events, assets);
      assetEvents := [];
    }

    /** `update_img_layout` over the widgets whose state or node changed;
        `nodes` gives each widget node's size. */
    method UpdateImgLayout(dirty: seq<Entity>, nodes: map<Entity, Vec2>)
      requires Valid() && Distinct(dirty)
      modifies this`surfaces
      ensures Valid()
      ensures surfaces.Keys == old(surfaces).Keys
      ensures forall e | e in dirty && Laid(imgs, old(surfaces), nodes, e) ::
        var s := imgs[e].surface;
        surfaces[s] == old(surfaces)[s].(style := LayoutStyle(old(surfaces)[s].style, imgs[e].size, nodes[e], imgs[e].mode))
      ensures forall s | s in surfaces && s !in LaidSurfaces(imgs, old(surfaces), nodes, dirty) ::
        surfaces[s] == old(surfaces)[s]
    {
      var i := 0;
      while i < |dirty|
        invariant 0 <= i <= |dirty|
        invariant surfaces.Keys == old(surfaces).Keys
        invariant forall e | e in dirty[..i] && Laid(imgs, old(surfaces), nodes, e) ::
          var s := imgs[e].surface;
          surfaces[s] == old(surfaces)[s].(style := LayoutStyle(old(surfaces)[s].style, imgs[e].size, nodes[e], imgs[e].mode))
        invariant forall s | s in surfaces && s !in LaidSurfaces(imgs, old(surfaces), nodes, dirty[..i]) ::
          surfaces[s] == old(surfaces)[s]
      {
        var entity := dirty[i];
        if entity in imgs && entity in nodes && imgs[entity].surface in surfaces {
          var element := imgs[entity];
          var surface := surfaces[element.surface];
          surfaces := surfaces[element.surface := surface.(style := LayoutStyle(surface.style, element.size, nodes[entity], element.mode))];
        }
        assert dirty[..i + 1] == dirty[..i] + [entity];
        i := i + 1;
      }
      assert dirty[..i] == dirty;
    }

    /** One frame of the plugin: `load_img`, then `update_img_size`, then
        `update_img_layout`, in the order the plugin's labels impose. */
    method Frame(changed: seq<Entity>, load: string -> Handle, assets: map<Handle, Vec2>, dirty: seq<Entity>, nodes: map<Entity, Vec2>)
      requires Valid() && Distinct(changed) && LoadReady(State(), changed) && Distinct(dirty)
      modifies this
      ensures Valid()
      ensures var r := LoadThenSize(old(State()), changed, load, assets);
        registry == r.registry && imgs == r.imgs && signals == r.signals && assetEvents == []
      ensures forall e | e in changed ::
        var h := Resolve(old(imgs)[e].src, load);
        && (h !in assets ==> imgs[e].size == Zero)
        && (h in assets && Removed(h) !in old(assetEvents) && (h != old(imgs)[e].handle || e in ImgState.Bucket(old(registry), h)) ==>
              imgs[e].size == assets[h])
      ensures surfaces.Keys == old(surfaces).Keys
      ensures var mid := LoadThenSize(old(State()), changed, load, assets);
        forall e | e in dirty && Laid(imgs, mid.surfaces, nodes, e) ::
          var s := imgs[e].surface;
          surfaces[s] == mid.surfaces[s].(style := LayoutStyle(mid.surfaces[s].style, imgs[e].size, nodes[e], imgs[e].mode))
      ensures var mid := LoadThenSize(old(State()), changed, load, assets);
        forall s | s in surfaces && s !in LaidSurfaces(imgs, mid.surfaces, nodes, dirty) :: surfaces[s] == mid.surfaces[s]
    {
      ghost var start := State();
      LoadImg(changed, load, assets);
      UpdateImgSize(assets);
      UpdateImgLayout(dirty, nodes);
      forall e | e in changed
        ensures var h := Resolve(start.imgs[e].src, load);
          && (h !in assets ==> imgs[e].size == Zero)
          && (h in assets && Removed(h) !in start.assetEvents && (h != start.imgs[e].handle || e in ImgState.Bucket(start.registry, h)) ==>
                imgs[e].size == assets[h])
      {
        PassSize(start, changed, load, assets, e);
      }
    }
  }
}
