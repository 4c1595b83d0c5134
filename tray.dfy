/** The one piece of `update_tray_icon` that carries logic: the flag it passes to
    the tray's `set_icon_as_template` after installing a freshly rendered icon. */
module Tray {
  import opened Image
  import IconGenerator

  /** `use_template` in `update_tray_icon`. */
  predicate TemplateFlag(percentage: Byte) { percentage > 50 }

  /** The tray marks an icon as a template exactly when the renderer drew it as
      one, so every template-flagged icon is a pure black-and-transparent
      stencil, ready for the host to tint. */
  lemma TemplateFlagMatchesRenderer(percentage: Byte, advance: IconGenerator.Advance, raster: Rasteriser)
    ensures TemplateFlag(percentage) <==> IconGenerator.UseTemplate(percentage)
    ensures TemplateFlag(percentage) ==> forall x, y ::
      IconGenerator.IconPixel(percentage, advance, raster, x, y) in {TRANSPARENT, OPAQUE_BLACK}
  {
  }
}
