/** The configuration sliders that turn a slider position ("progress") into
    a processing parameter: the block size and the reduction constant of an
    adaptive threshold. */
module SliderConfig {

  /** Upper ends of the two sliders; their lower end is 0. */
  const BlockSizeSliderMax: nat := 32
  const ReductionSliderMax: nat := 64

  /** Starting values of the two tuning parameters. */
  const InitialBlockSize: int := 21
  const InitialReduction: int := 32

  /** Block size for a slider position: the smallest odd number that is at
      least `progress + 2`. The slider listener in `OCRProcessor` tests `progress % 2 == 0`; Java's
      remainder and Dafny's agree on whether it is zero for every integer. */
  function BlockSize(progress: int): (b: int)
    ensures b % 2 == 1
    ensures progress + 2 <= b && b - 2 < progress + 2
    ensures progress >= 0 ==> b >= 3
    ensures 0 <= progress <= BlockSizeSliderMax ==> 3 <= b <= 35
  {
    if progress % 2 == 0 then progress + 3 else progress + 2
  }

  /** Adjacent positions `2k` and `2k + 1` give the same block size, and
      the block size never decreases as the slider moves right. */
  lemma BlockSizeSteps(p: int, q: int)
    requires p <= q
    ensures BlockSize(p) <= BlockSize(q)
    ensures p % 2 == 0 && q == p + 1 ==> BlockSize(p) == BlockSize(q)
  {
  }

  /** Reduction constant for a slider position: one less than the position. */
  function Reduction(progress: int): (r: int)
    ensures r + 1 == progress
    ensures 0 <= progress <= ReductionSliderMax ==> -1 <= r <= 63
  {
    progress - 1
  }

  /** The slider's `setProgress(value)`: a position outside `[0, max]` is
      clamped to the nearer end. */
  function SetProgress(value: int, max: nat): (p: int)
    ensures 0 <= p <= max
    ensures 0 <= value <= max ==> p == value
    ensures value < 0 ==> p == 0
    ensures value > max ==> p == max
  {
    if value < 0 then 0 else if value > max then max else value
  }

  /** Slider position the reduction slider is opened at,
      `setProgress(reduction + 1)` on a slider of range `[0, 64]`. */
  function ReductionProgress(reduction: int): (p: int)
    ensures 0 <= p <= ReductionSliderMax
    ensures -1 <= reduction <= 63 <==> Reduction(p) == reduction
  {
    SetProgress(reduction + 1, ReductionSliderMax)
  }

  /** The reduction slider opens at the position that maps back to the
      current value for every value the slider can produce, and at the
      initial value that position is within range. */
  lemma ReductionRoundTrip(progress: int)
    requires 0 <= progress <= ReductionSliderMax
    ensures ReductionProgress(Reduction(progress)) == progress
    ensures Reduction(ReductionProgress(InitialReduction)) == InitialReduction
  {
  }

  /** Slider position the block-size slider is opened at, as written:
      `setProgress(blocksize)` on a slider of range `[0, 32]`, that is the
      block size itself clamped to the slider, not a position that maps to
      it. */
  function BlockSizeProgressAsWritten(blocksize: int): (p: int)
    ensures 0 <= p <= BlockSizeSliderMax
    ensures 0 <= blocksize <= BlockSizeSliderMax ==> p == blocksize && BlockSize(p) >= blocksize + 2
  {
    SetProgress(blocksize, BlockSizeSliderMax)
  }

  /** The as-written opening position maps back to the current block size
      only for the largest block size 35 (its position is clamped to 32,
      which reads as 35); at the initial block size 21 the slider stands
      where it reads as 23. */
  lemma BlockSizeProgressAsWrittenDrifts(blocksize: int)
    ensures BlockSize(BlockSizeProgressAsWritten(blocksize)) == blocksize <==> blocksize == 35
    ensures BlockSize(BlockSizeProgressAsWritten(InitialBlockSize)) == 23
  {
  }

  /** Corrected opening position: the even position that maps to the given
      odd block size, clamped to the slider like every position. */
  function BlockSizeProgress(blocksize: int): (p: int)
    ensures 0 <= p <= BlockSizeSliderMax
    ensures blocksize % 2 == 1 && 3 <= blocksize <= 35 <==> BlockSize(p) == blocksize
  {
    SetProgress(blocksize - 3, BlockSizeSliderMax)
  }

  /** Every odd block size from 3 to 35 is reachable from the slider, and
      the corrected opening position round-trips the initial value. */
  lemma BlockSizeOnto(blocksize: int)
    requires blocksize % 2 == 1 && 3 <= blocksize <= 35
    ensures exists p :: 0 <= p <= BlockSizeSliderMax && BlockSize(p) == blocksize
    ensures BlockSize(BlockSizeProgress(InitialBlockSize)) == InitialBlockSize
  {
    var p := BlockSizeProgress(blocksize);
    assert 0 <= p <= BlockSizeSliderMax && BlockSize(p) == blocksize;
  }
}
