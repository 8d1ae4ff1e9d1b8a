/** The per-widget state (`Img`), its companion surface, the process-wide
    `ImageRegistry`, and the invariants that tie them together. */
module ImgState {
  import opened Prelude
  import opened ImgModes
  import opened AssetSources
  import opened ImgEvents

  /** The `Img` component: three user-set fields (`src`, `mode`,
      `modulate`) and three internal ones: the resolved `handle`, the
      companion `surface` entity that renders the image, and the cached
      intrinsic `size` of the bound image. */
  datatype Img = Img(
    src: AssetSource,
    mode: ImgMode,
    modulate: Color,
    handle: Handle,
    surface: Entity,
    size: Vec2)

  /** `Img::from_world_and_params`: each user-set field is taken from the
      element's parameters when given and defaults otherwise; the widget
      starts unbound (default handle, zero size) with the freshly spawned
      entity `surface` as its companion. */
  function FromParams(src: Option<AssetSource>, mode: Option<ImgMode>, modulate: Option<Color>, surface: Entity): (r: Img)
    ensures r.handle == DefaultHandle && r.size == Zero && r.surface == surface
    ensures r.src == if src.Some? then src.value else DefaultSource()
    ensures r.mode == if mode.Some? then mode.value else DefaultMode
    ensures r.modulate == if modulate.Some? then modulate.value else White
  {
    Img(src.UnwrapOr(DefaultSource()), mode.UnwrapOr(DefaultMode), modulate.UnwrapOr(White), DefaultHandle, surface, Zero)
  }

  /** The companion surface's `UiImage` handle and `Style`. */
  datatype Surface = Surface(image: Handle, style: Style)

  /** `ImageRegistry`: handle to the set of widget entities bound to it. */
  type Registry = map<Handle, set<Entity>>

  /** The entities under `h`; a missing key reads as an empty set. */
  function Bucket(reg: Registry, h: Handle): set<Entity> {
    if h in reg then reg[h] else {}
  }

  /** Everything the three systems read or write: the registry, the `Img`
      components by widget entity, the surface components by surface
      entity, the signals sent so far and the pending asset events. */
  datatype WorldState = WorldState(
    registry: Registry,
    imgs: map<Entity, Img>,
    surfaces: map<Entity, Surface>,
    signals: seq<ImgEvent>,
    assetEvents: seq<AssetEvent>)

  /** A live widget appears only in the bucket of its current handle, so in
      at most one bucket. Despawned widgets may linger in a bucket. */
  ghost predicate Consistent(reg: Registry, imgs: map<Entity, Img>) {
    forall h, e :: h in reg && e in reg[h] && e in imgs ==> imgs[e].handle == h
  }

  /** A widget whose cached size is non-zero is registered under its
      handle, so a `Removed` event for that handle reaches it. */
  ghost predicate SizeTracked(reg: Registry, imgs: map<Entity, Img>) {
    forall e :: e in imgs && imgs[e].size != Zero ==> e in Bucket(reg, imgs[e].handle)
  }

  /** Each widget has its own companion surface. */
  ghost predicate SurfacesDistinct(imgs: map<Entity, Img>) {
    forall e, f :: e in imgs && f in imgs && e != f ==> imgs[e].surface != imgs[f].surface
  }

  ghost predicate Valid(st: WorldState) {
    Consistent(st.registry, st.imgs) && SizeTracked(st.registry, st.imgs) && SurfacesDistinct(st.imgs)
  }

  /** Two `Img` values agree on everything but `handle` and `size`. */
  predicate SameConfig(a: Img, b: Img) {
    a.src == b.src && a.mode == b.mode && a.modulate == b.modulate && a.surface == b.surface
  }
}
