/**
 * The colour constants of the design system (`COLORS` in src/theme.ts) that
 * the modelled pages use. They are opaque strings to the model; only their
 * identity (and that they differ from one another) matters.
 */
module Theme {

  const Bg: string := "#0F0F12"
  const Surface: string := "#1A1A22"
  const SurfaceHover: string := "#22222E"
  const Border: string := "#2A2A38"
  const TextMuted: string := "#55556A"
  const Accent: string := "#E8457C"
  const Success: string := "#34D399"
  const Warning: string := "#FBBF24"
  const Danger: string := "#F87171"
  const Info: string := "#60A5FA"
}
