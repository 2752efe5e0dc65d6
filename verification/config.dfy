/**
 Constants of the playout system's configuration module. Paths are written
 relative to the application's base directory; the overlay and program-name
 switches that the control surface can flip at run time are parameters of the
 functions that read them, not constants.
 */
module Config {

  // --- directories and files ---
  const UPLOAD_FOLDER: string := "videos"
  const IDLE_SOURCE_PATH: string := "idle.mp4"
  const LOGO_PATH: string := "overlays/logo.png"
  const BANNER_PATH: string := "overlays/banner.png"
  const SEGMENT_SUFFIX: string := ".ts"

  // --- segment management ---
  const MAX_ACTIVE_SEGMENTS: nat := 50
  /** Seconds a segment stays in the trash before it may be erased. */
  const TRASH_RETENTION_TIME: nat := 3600
  /** Target length, in seconds, of one HLS segment. */
  const HLS_SEGMENT_DURATION: nat := 2

  // --- overlay positions, as the decimal text the filter graph receives ---
  const LOGO_POSITION_X: string := "10"
  const LOGO_POSITION_Y: string := "10"
  const BANNER_POSITION_X: string := "0"
  const BANNER_POSITION_Y_OFFSET: string := "10"

  // --- program-name text overlay ---
  const FONT_PATH: string := "arial.ttf"
  const FONT_SIZE: string := "24"
  const FONT_COLOR: string := "white"
  const BOX_COLOR: string := "black@0.0"
  const BOX_BORDER_WIDTH: string := "5"
  const PROGRAM_NAME_X: string := "w-tw-10"
  const PROGRAM_NAME_Y: string := "10"

  // --- auto mode ---
  const AUTO_MODE_ENABLED: bool := false
  /** The first configured hashtag, which seeds the current hashtag. */
  const DEFAULT_HASHTAG: string := "funny"

  // --- orchestrator pacing, in seconds ---
  const TICK_SLEEP: nat := 1
  const RESOLVER_BACKOFF: nat := 5
}
