/** How the widget's configuration reaches it: the Python constructor's coercion of its
    `colors` argument, and the JavaScript fallbacks applied when the rendered view reads
    `colors` and `history_length` from the host model. */
module Construction {
  import opened Wrappers

  /** The colour of the Python constructor's default `colors` argument. */
  const DefaultColor: string := "#335791"

  /** The list the rendered view falls back to when the host's `colors` is unset. */
  const FallbackColors: seq<string> := ["#335791"]

  /** The undo depth used when the host's `history_length` is unset or zero. */
  const DefaultHistoryLength: int := 10

  /** The `colors` argument of the Python constructor: one colour string or a list of them. */
  datatype ColorsArgument = Single(color: string) | Several(colors: seq<string>)

  /** The constructor's default argument value. */
  const DefaultColorsArgument: ColorsArgument := Single(DefaultColor)

  /** The list the constructor hands to the synchronised `colors` trait: a plain string becomes
      a one-element list, a list passes through unchanged. */
  function InitialColors(arg: ColorsArgument): (r: seq<string>)
    ensures arg.Single? ==> |r| == 1 && r[0] == arg.color
    ensures arg.Several? ==> r == arg.colors
  {
    match arg
    case Single(c) => [c]
    case Several(cs) => cs
  }

  /** The list the rendered view starts from: `model.get('colors') || FallbackColors`.
      Only an unset value falls back; an empty list is a truthy JavaScript array and is kept. */
  function RenderColors(stored: Option<seq<string>>): (r: seq<string>)
    ensures stored.Some? ==> r == stored.value
    ensures stored.None? ==> r == FallbackColors
  {
    match stored
    case Some(cs) => cs
    case None => FallbackColors
  }

  /** The undo depth: `model.get('history_length') || 10`. Unset and zero both give the
      default; every other integer, negative ones included, is taken as it is. */
  function EffectiveHistoryLength(setting: Option<int>): (n: int)
    ensures n != 0
    ensures setting.Some? && setting.value != 0 ==> n == setting.value
    ensures setting.None? || setting.value == 0 ==> n == DefaultHistoryLength
  {
    match setting
    case Some(k) => if k != 0 then k else DefaultHistoryLength
    case None => DefaultHistoryLength
  }

  /** The constructor's default argument and the render-time fallback, written separately in
      the Python and JavaScript halves, give the same list. */
  lemma DefaultsAgree()
    ensures InitialColors(DefaultColorsArgument) == RenderColors(None)
  {
  }
}
