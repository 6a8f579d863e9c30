/**
 * Keeping the page's `scale` query parameter in step with the panel's model
 * scale. A scale is represented by the text `Number.prototype.toString` gives
 * for it (2.0 is "2", 0.5 is "0.5"), which is all the effect compares.
 */
module ScaleParam {

  import opened Wrappers

  /** The query parameter that carries the scale. */
  const ScaleKey: string := "scale"

  /** The panel's scale before anything changes it: `useState<number>(2.0)`. */
  const InitialScale: string := "2"

  /** A scale preset button: its caption and the scale it selects. */
  datatype ScalePreset = ScalePreset(name: string, scale: string)

  const ScalePresets: seq<ScalePreset> := [
    ScalePreset("Normal (1.0)", "1"),
    ScalePreset("Small (0.5)", "0.5"),
    ScalePreset("Very Small (0.1)", "0.1"),
    ScalePreset("Tiny (0.01)", "0.01"),
    ScalePreset("Large (2.0)", "2")
  ]

  /** The query parameters after one run of the scale effect, and whether that run reloads the page. */
  datatype ScaleSync = ScaleSync(params: map<string, string>, reload: bool)

  /**
   * One run of the scale effect: the `scale` parameter is overwritten with
   * the current scale, and the page reloads when a previous parameter was
   * present and differed from it.
   */
  function ScaleEffect(params: map<string, string>, scale: string): (r: ScaleSync)
    ensures ScaleKey in r.params && r.params[ScaleKey] == scale
    ensures r.params.Keys == params.Keys + {ScaleKey}
    ensures forall k :: k in params && k != ScaleKey ==> r.params[k] == params[k]
    ensures r.reload <==> ScaleKey in params && params[ScaleKey] != scale
  {
    var previous := Get(params, ScaleKey);
    var reload := match previous
      case None => false
      case Some(p) => p != scale;
    ScaleSync(params[ScaleKey := scale], reload)
  }

  /**
   * The first write, on a page without a `scale` parameter, never reloads;
   * and a second run with an unchanged scale neither reloads nor changes the
   * parameters.
   */
  lemma ScaleEffectSettles(params: map<string, string>, scale: string)
    ensures ScaleKey !in params ==> !ScaleEffect(params, scale).reload
    ensures var once := ScaleEffect(params, scale).params;
      ScaleEffect(once, scale) == ScaleSync(once, false)
  {
    var once := ScaleEffect(params, scale).params;
    assert once[ScaleKey := scale] == once;
  }

  /** The browser location's query parameters, which the scale effect rewrites. */
  class PageUrl {
    var params: map<string, string>

    constructor (params: map<string, string>)
      ensures this.params == params
    {
      this.params := params;
    }
  }
}
