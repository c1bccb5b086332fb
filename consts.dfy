/** The constants of the QOI format that the codec reads from its `consts`
    module: the size of the previously-seen cache, the longest run a single
    run chunk can hold, and the two channel counts. */
module Consts {
  /** Number of slots in the previously-seen pixel cache. */
  const SEEN_PIXEL_ARRAY_SIZE: nat := 64

  /** Longest run one run chunk can describe (six bits, stored with bias -1,
      and the two stored values 62 and 63 are taken by the raw-pixel tags). */
  const MAX_RUN_LENGTH: nat := 62

  const RGB_CHANNELS: nat := 3
  const RGBA_CHANNELS: nat := 4
}
