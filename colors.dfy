/**
 * Team colours and the colour-name table used by the `color` command and by
 * roster files. Colours are plain RGBA values; hexadecimal parsing belongs to
 * the engine and is passed in as a function.
 */
module Colors {
  import opened Wrappers

  datatype Color = Rgba(r: real, g: real, b: real, a: real)

  /** The eight extra colour names and the engine's values for them (single-precision constants, written out in decimal). */
  const COLOR_NAMES: map<string, Color> := map[
    "red" := Rgba(1.0, 0.0, 0.0, 1.0),
    "green" := Rgba(0.0, 1.0, 0.0, 1.0),
    "blue" := Rgba(0.0, 0.0, 1.0, 1.0),
    "yellow" := Rgba(1.0, 0.921568632, 0.0156862754, 1.0),
    "cyan" := Rgba(0.0, 1.0, 1.0, 1.0),
    "magenta" := Rgba(1.0, 0.0, 1.0, 1.0),
    "white" := Rgba(1.0, 1.0, 1.0, 1.0),
    "black" := Rgba(0.0, 0.0, 0.0, 1.0)
  ]

  /**
   * `ParseColor`: the exact (case-sensitive) name first, then the engine's
   * HTML colour parser `html`; `None` when both fail.
   */
  function ParseColor(str: string, html: string -> Option<Color>): (r: Option<Color>)
    ensures str in COLOR_NAMES ==> r == Some(COLOR_NAMES[str])
    ensures str !in COLOR_NAMES ==> r == html(str)
    ensures r.None? <==> str !in COLOR_NAMES && html(str).None?
  {
    if str in COLOR_NAMES then Some(COLOR_NAMES[str]) else html(str)
  }
}
