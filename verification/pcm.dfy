/** Audio samples as the proxy stores them: unsigned 16-bit values at
    48 kHz, mono, moved in 10 ms frames of 480 samples. */
module Pcm {

  type Sample = x: int | 0 <= x < 0x1_0000

  /** Samples in one 10 ms frame at 48 kHz. */
  const FRAME_SAMPLES: nat := 480
}
