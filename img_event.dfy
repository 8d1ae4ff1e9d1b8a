/** The widget's lifecycle signal, carrying the entities it concerns. */
module ImgEvents {
  import opened Prelude

  datatype ImgEvent = Loaded(entities: seq<Entity>) | Unloaded(entities: seq<Entity>)

  /** `ImgEvent::loaded`. */
  function IsLoaded(ev: ImgEvent): (r: bool)
    ensures r <==> ev.Loaded?
  {
    match ev
    case Loaded(_) => true
    case Unloaded(_) => false
  }

  /** `ImgEvent::unloaded`. */
  function IsUnloaded(ev: ImgEvent): (r: bool)
    ensures r <==> ev.Unloaded?
  {
    match ev
    case Loaded(_) => false
    case Unloaded(_) => true
  }

  /** `Signal::sources`: the entities the signal is about. */
  function Sources(ev: ImgEvent): (r: seq<Entity>)
    ensures r == ev.entities
  {
    match ev
    case Loaded(es) => es
    case Unloaded(es) => es
  }

  /** Every signal is exactly one of loaded and unloaded, and its sources
      are the entities it was built with. */
  lemma SignalKinds(ev: ImgEvent, es: seq<Entity>)
    ensures IsLoaded(ev) != IsUnloaded(ev)
    ensures Sources(Loaded(es)) == es && Sources(Unloaded(es)) == es
  {
  }
}
