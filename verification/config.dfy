/** The configuration values that carry classification and gating semantics. */
module Config {

  /** `CONFIDENCE_THRESHOLD`: the least best similarity that keeps a category label. */
  const ConfidenceThreshold: real := 0.3

  /** `ALLOWED_EXTENSIONS`, compared against the lowercased extension of an upload. */
  const AllowedExtensions: seq<string> := ["pdf", "png", "jpg"]
}
