/** Engine-side vocabulary the image widget is written against: entity ids,
    asset handles, 2D vectors, asset lifecycle events and the handful of UI
    style fields the widget writes. Handles and entities are opaque ids. */
module Prelude {

  /** An ECS entity id. */
  type Entity = nat

  /** The id of an image asset; `DefaultHandle` is `Handle::default()`, the
      handle that denotes no asset. */
  type Handle = nat

  const DefaultHandle: Handle := 0

  /** A 2D vector (`Vec2`), used both for image sizes and node sizes. */
  datatype Vec2 = Vec2(x: real, y: real)

  const Zero: Vec2 := Vec2(0.0, 0.0)

  /** Lifecycle notification of the asset store for one handle. */
  datatype AssetEvent =
    | Created(handle: Handle)
    | Modified(handle: Handle)
    | Removed(handle: Handle)

  /** The tint colour of an image; the widget only stores it. */
  datatype Color = Rgba(r: real, g: real, b: real, a: real)

  /** `Color::default()`, opaque white. */
  const White: Color := Rgba(1.0, 1.0, 1.0, 1.0)

  /** `Display::Flex` and `Display::None`. */
  datatype Display = Flex | Hidden

  /** A UI length value. */
  datatype Val = Undefined | Px(px: real) | Percent(percent: real)

  datatype UiSize = UiSize(width: Val, height: Val)

  datatype UiRect = UiRect(left: Val, right: Val, top: Val, bottom: Val)

  /** The fields of a node's `Style` that the image widget reads or writes. */
  datatype Style = Style(display: Display, size: UiSize, minSize: UiSize, margin: UiRect)

  /** An optional value, as Rust's `Option<T>`. */
  datatype Option<T> = None | Some(value: T) {
    /** `unwrap_or`: the value if there is one, `default` otherwise. */
    function UnwrapOr(default: T): T {
      if Some? then value else default
    }
  }

  /** A fallible result whose error is a message, as Rust's `Result<T, String>`. */
  datatype Result<T> = Ok(value: T) | Err(error: string)

  /** No element of `s` occurs twice. */
  predicate Distinct<T(==)>(s: seq<T>) {
    forall i, j :: 0 <= i < j < |s| ==> s[i] != s[j]
  }

  /** Concatenation is associative. */
  lemma AppendAssoc<T>(a: seq<T>, b: seq<T>, c: seq<T>)
    ensures (a + b) + c == a + (b + c)
  {
  }
}
