/** The four sizing policies of an image and their textual form. */
module ImgModes {
  import opened Prelude

  /** How an image fills its box; `Fit` is the default. */
  datatype ImgMode = Fit | Cover | Stretch | Source

  const DefaultMode: ImgMode := Fit

  const ErrorPrefix: string := "Can't parse `"
  const ErrorSuffix: string := "` as ImgMode"

  /** `t` occurs in `msg` starting at position `i`. */
  predicate OccursAt(msg: string, t: string, i: nat) {
    i + |t| <= |msg| && msg[i..i + |t|] == t
  }

  /** `t` occurs as a contiguous piece of `msg`. */
  ghost predicate Embeds(msg: string, t: string) {
    exists i: nat :: OccursAt(msg, t, i)
  }

  /** `ImgMode::from_str`: the empty string and "fit" give `Fit`, "cover",
      "stretch" and "source" give their mode (case-sensitively); every other
      text is an error whose message carries that text. */
  function ParseMode(s: string): (r: Result<ImgMode>)
    ensures r == Ok(Fit) <==> s == "" || s == "fit"
    ensures r == Ok(Cover) <==> s == "cover"
    ensures r == Ok(Stretch) <==> s == "stretch"
    ensures r == Ok(Source) <==> s == "source"
    ensures r.Err? ==> Embeds(r.error, s)
  {
    if s == "" || s == "fit" then Ok(Fit)
    else if s == "cover" then Ok(Cover)
    else if s == "stretch" then Ok(Stretch)
    else if s == "source" then Ok(Source)
    else
      var msg := ErrorPrefix + s + ErrorSuffix;
      assert OccursAt(msg, s, |ErrorPrefix|);
      Err(msg)
  }

  /** `TryFrom<String> for ImgMode`: delegates to `ParseMode`. */
  function TryFromString(value: string): (r: Result<ImgMode>)
    ensures r == ParseMode(value)
  {
    ParseMode(value)
  }

  /** The canonical spelling of each mode, as written in markup. */
  function ModeName(m: ImgMode): string {
    match m
    case Fit => "fit"
    case Cover => "cover"
    case Stretch => "stretch"
    case Source => "source"
  }

  /** Parsing the canonical spelling of a mode gives the mode back. */
  lemma ParseModeName(m: ImgMode)
    ensures ParseMode(ModeName(m)) == Ok(m)
  {
  }

  /** Every successful parse is of the canonical name or of the empty
      string, which stands for the default mode. */
  lemma ParseOkIsName(s: string)
    requires ParseMode(s).Ok?
    ensures s == ModeName(ParseMode(s).value) || (s == "" && ParseMode(s).value == DefaultMode)
  {
  }

  /** Matching is case-sensitive: capitalised names are rejected. */
  lemma ParseIsCaseSensitive()
    ensures ParseMode("Fit").Err? && ParseMode("COVER").Err?
  {
  }

  /** The error message determines the rejected text: two different
      rejected inputs never produce the same error. */
  lemma {:induction false} ParseErrorDeterminesInput(s: string, t: string)
    requires ParseMode(s).Err? && ParseMode(t).Err?
    requires ParseMode(s).error == ParseMode(t).error
    ensures s == t
  {
    var ms, mt := ErrorPrefix + s + ErrorSuffix, ErrorPrefix + t + ErrorSuffix;
    assert |s| == |t| by {
      assert |ms| == |ErrorPrefix| + |s| + |ErrorSuffix|;
      assert |mt| == |ErrorPrefix| + |t| + |ErrorSuffix|;
    }
    assert s == ms[|ErrorPrefix|..|ErrorPrefix| + |s|];
    assert t == mt[|ErrorPrefix|..|ErrorPrefix| + |t|];
  }
}
