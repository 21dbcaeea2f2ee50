/** The configuration values the services read, fixed at their defaults. */
module Config {
  /** `MAX_VIDEO_SIZE_MB` (its value when the environment does not set it). */
  const MaxVideoSizeMb: int := 500

  /** `ALLOWED_EXTENSIONS`. */
  const AllowedExtensions: set<string> := {"mp4", "webm", "mkv", "avi", "mov"}
}
