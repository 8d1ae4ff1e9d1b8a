/** Where an image comes from: a logical path, or a handle the caller
    already holds (`AssetSource<Image>`, alias `ImageSource`). */
module AssetSources {
  import opened Prelude

  datatype AssetSource = Path(path: string) | HandleRef(handle: Handle)

  /** `AssetSource::default()`: the empty path, which binds no asset. */
  function DefaultSource(): (r: AssetSource)
    ensures r.Path? && |r.path| == 0
  {
    Path("")
  }

  /** `PartialEq for AssetSource`: paths compare by text, handles by id,
      and a path never equals a handle. */
  function SourceEq(a: AssetSource, b: AssetSource): (r: bool)
    ensures r <==> a == b
    ensures a.Path? != b.Path? ==> !r
  {
    match (a, b)
    case (Path(s), Path(o)) => s == o
    case (HandleRef(s), HandleRef(o)) => s == o
    case _ => false
  }

  /** `From<String> for AssetSource`. */
  function FromString(s: string): (r: AssetSource)
    ensures r.Path? && r.path == s
  {
    Path(s)
  }

  /** `From<Handle<Image>> for AssetSource`. */
  function FromHandle(h: Handle): (r: AssetSource)
    ensures r.HandleRef? && r.handle == h
  {
    HandleRef(h)
  }

  /** `SourceEq` is an equivalence relation. */
  lemma SourceEqIsEquivalence(a: AssetSource, b: AssetSource, c: AssetSource)
    ensures SourceEq(a, a)
    ensures SourceEq(a, b) == SourceEq(b, a)
    ensures SourceEq(a, b) && SourceEq(b, c) ==> SourceEq(a, c)
  {
  }

  /** The two conversions are injective and never meet: a source made from
      text never equals one made from a handle, even the default handle. */
  lemma ConversionsSeparate(s: string, t: string, h: Handle, k: Handle)
    ensures SourceEq(FromString(s), FromString(t)) <==> s == t
    ensures SourceEq(FromHandle(h), FromHandle(k)) <==> h == k
    ensures !SourceEq(FromString(s), FromHandle(h))
    ensures !SourceEq(DefaultSource(), FromHandle(DefaultHandle))
  {
  }
}
