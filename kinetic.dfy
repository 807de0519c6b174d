/**
 * The style annotation record and the lookup tables the result views use:
 * accent colour per framework and style, background image per framework,
 * and the framework's display label, each with the fallbacks the views apply.
 */
module Kinetic {
  import opened Wrappers

  /** One parsed style annotation: the record a marker payload decodes to. */
  datatype StyleResult = StyleResult(
    framework: string,
    dim1Label: string, dim1Left: string, dim1Right: string, dim1Score: real,
    dim2Label: string, dim2Left: string, dim2Right: string, dim2Score: real,
    style: string, summary: string)

  const Orange: string := "#ff6f20"
  const Lime: string := "#bed600"
  const Purple: string := "#9f60b5"
  const Blue: string := "#009ddb"

  /** The four quadrant colours, in the order every framework table lists its styles. */
  const Palette: seq<string> := [Orange, Lime, Purple, Blue]

  const ThinkingStyles: seq<string> := ["Focused", "Playful", "Incremental", "Breakaway"]
  const ManagingStyles: seq<string> := ["Efficient", "Supportive", "Inquisitive", "Venturing"]
  const LeadingStyles: seq<string> := ["Troubleshooter", "Co-creator", "Challenger", "Transformer"]

  const FrameworkColors: map<string, map<string, string>> := map[
    "thinking" := map["Focused" := Orange, "Playful" := Lime, "Incremental" := Purple, "Breakaway" := Blue, "default" := Orange],
    "managing" := map["Efficient" := Orange, "Supportive" := Lime, "Inquisitive" := Purple, "Venturing" := Blue, "default" := Orange],
    "leading" := map["Troubleshooter" := Orange, "Co-creator" := Lime, "Challenger" := Purple, "Transformer" := Blue, "default" := Orange]
  ]

  const FrameworkBackgrounds: map<string, string> := map[
    "thinking" := "/images/thinking-background.png",
    "managing" := "/images/managing-background.png",
    "leading" := "/images/leading-background.png"
  ]

  const FrameworkLabels: map<string, string> := map[
    "thinking" := "Kinetic Thinking Style",
    "managing" := "Kinetic Managing Style",
    "leading" := "Kinetic Leading Style"
  ]

  /** Property access on a plain object: the value under `k`, or nothing. */
  function Get<T>(m: map<string, T>, k: string): Option<T> {
    if k in m then Some(m[k]) else None
  }

  /** JavaScript's `a || b` where `a` is a looked-up string: a missing key or an empty string falls through to `b`. */
  function OrElse(a: Option<string>, b: string): string {
    if a.Some? && a.value != "" then a.value else b
  }

  /** The colour table of a framework; an unknown framework uses the thinking table (tables are objects, so always truthy). */
  function ColorTable(fw: string): map<string, string> {
    if fw in FrameworkColors then FrameworkColors[fw] else FrameworkColors["thinking"]
  }

  /** The accent colour of a style within a framework, falling back to the table's default. */
  function Accent(fw: string, style: string): string {
    var colors := ColorTable(fw);
    OrElse(Get(colors, style), colors["default"])
  }

  /** The background image of a framework, falling back to the thinking background. */
  function Background(fw: string): string {
    OrElse(Get(FrameworkBackgrounds, fw), FrameworkBackgrounds["thinking"])
  }

  /** The heading of a result card: the framework's label, or the framework name itself when it has none. */
  function FrameworkLabel(fw: string): string {
    OrElse(Get(FrameworkLabels, fw), fw)
  }

  /**
   * The quadrant styles of the table `ColorTable(fw)` uses, in palette order:
   * four distinct names, none of them "default", and the table maps the q-th
   * of them to the q-th palette colour and "default" to orange, and holds
   * nothing else.
   */
  function QuadrantStyles(fw: string): (styles: seq<string>)
    ensures |styles| == 4
    ensures forall q, r :: 0 <= q < r < 4 ==> styles[q] != styles[r]
    ensures "default" !in styles
    ensures ColorTable(fw) == map[styles[0] := Palette[0], styles[1] := Palette[1], styles[2] := Palette[2],
                                  styles[3] := Palette[3], "default" := Orange]
  {
    if fw == "managing" then ManagingStyles
    else if fw == "leading" then LeadingStyles
    else ThinkingStyles
  }

  /** Whatever the framework and style, the accent is one of the four palette colours. */
  lemma AccentInPalette(fw: string, style: string)
    ensures Accent(fw, style) in Palette
  {
  }

  /** An unknown framework is coloured exactly as the thinking framework. */
  lemma AccentUnknownFramework(fw: string, style: string)
    requires fw !in FrameworkColors
    ensures Accent(fw, style) == Accent("thinking", style)
  {
  }

  /** A style the framework's table does not name gets the default colour, orange. */
  lemma AccentUnknownStyle(fw: string, style: string)
    requires style !in QuadrantStyles(fw)
    ensures Accent(fw, style) == Orange
  {
  }

  /** Every framework colours its q-th quadrant style with the q-th palette colour. */
  lemma AccentByQuadrant(fw: string, q: nat)
    requires q < 4
    ensures Accent(fw, QuadrantStyles(fw)[q]) == Palette[q]
  {
  }

  /**
   * The three non-default colours identify the style: within a framework's
   * table, lime, purple and blue belong to exactly one quadrant style each.
   */
  lemma AccentIdentifiesStyle(fw: string, style: string, q: nat)
    requires 1 <= q < 4
    ensures Accent(fw, style) == Palette[q] <==> style == QuadrantStyles(fw)[q]
  {
  }

  /**
   * A known framework gets its own image; any other gets the thinking one, so
   * the background is always one of the three framework images.
   */
  lemma BackgroundFallback(fw: string)
    ensures fw in FrameworkBackgrounds ==> Background(fw) == FrameworkBackgrounds[fw]
    ensures Background(fw) in FrameworkBackgrounds.Values
    ensures fw !in FrameworkBackgrounds ==> Background(fw) == "/images/thinking-background.png"
  {
  }

  /**
   * A known framework is headed by its own label, which reads "Kinetic … Style";
   * an unknown one is headed by its own name.
   */
  lemma LabelFallback(fw: string)
    ensures fw in FrameworkLabels ==> FrameworkLabel(fw) == FrameworkLabels[fw]
    ensures fw in FrameworkLabels ==> FrameworkLabel(fw)[..8] == "Kinetic " && FrameworkLabel(fw)[|FrameworkLabel(fw)| - 6..] == " Style"
    ensures fw !in FrameworkLabels ==> FrameworkLabel(fw) == fw
  {
  }
}
