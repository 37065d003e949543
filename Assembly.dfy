/**
 * What one upload batch contributes to a volume before ordering: each file
 * gives no slice (it did not decode), the single-frame copies of a multi-frame
 * dataset, or the dataset itself. These functions specify the loops of the
 * volume manager's `AddVolume` and `SplitMultiframe`.
 */
module Assembly {
  import opened Dataset

  /** The frame split succeeds: the frame count converts, the pixel array
      decodes and holds a frame for every index the loop visits. */
  predicate SplitSucceeds(ds: Slice, frames: Option<seq<Pixels>>)
  {
    ds.numberOfFrames.Present? && frames.Some? && ds.numberOfFrames.value <= |frames.value|
  }

  /** Splitting a dataset into single-frame copies numbered 1..F. A failure
      anywhere (the count does not convert, the pixel array does not decode,
      or a frame index is past the decoded frames) keeps the dataset whole. */
  function Split(ds: Slice, frames: Option<seq<Pixels>>): seq<Slice>
  {
    if !SplitSucceeds(ds, frames) then [ds]
    else
      var n := ds.numberOfFrames.value;
      if n <= 0 then []
      else seq(n, i requires 0 <= i < n => FrameOf(ds, frames.value[i], i + 1))
  }

  /** The slices one file adds to the batch, in order. A frame count that is
      present but does not convert raises inside the per-file handler, so the
      file is skipped like one that does not decode. */
  function FileSlices(f: DecodeResult): (r: seq<Slice>)
    ensures |r| == ExpectedCount(f)
  {
    match f
    case DecodeFailed => []
    case Decoded(ds, frames) =>
      match ds.numberOfFrames
      case Malformed => []
      case Missing => [ds]
      case Present(n) => if n > 1 then Split(ds, frames) else [ds]
  }

  /** How many slices a file should give, stated without reference to the
      split: none when it cannot be read, F for an F-frame dataset (F > 1)
      that splits, one otherwise. */
  function ExpectedCount(f: DecodeResult): nat
  {
    if f.DecodeFailed? || f.ds.numberOfFrames.Malformed? then 0
    else if f.ds.numberOfFrames.Present? && f.ds.numberOfFrames.value > 1 && SplitSucceeds(f.ds, f.frames)
    then f.ds.numberOfFrames.value
    else 1
  }

  /** The batch's slices in file order, before sorting. */
  function Assemble(files: seq<DecodeResult>): seq<Slice>
  {
    if files == [] then []
    else Assemble(files[..|files| - 1]) + FileSlices(files[|files| - 1])
  }

  function TotalExpected(files: seq<DecodeResult>): nat
  {
    if files == [] then 0
    else TotalExpected(files[..|files| - 1]) + ExpectedCount(files[|files| - 1])
  }

  /** The batch's slice count is the sum over its files. */
  lemma {:induction false} AssembleCount(files: seq<DecodeResult>)
    ensures |Assemble(files)| == TotalExpected(files)
  {
    if files != [] {
      AssembleCount(files[..|files| - 1]);
    }
  }

  /** Assembly works file by file: the slices of two batches in a row are the
      slices of the first followed by those of the second. */
  lemma {:induction false} AssembleAppend(a: seq<DecodeResult>, b: seq<DecodeResult>)
    ensures Assemble(a + b) == Assemble(a) + Assemble(b)
  {
    if b == [] {
      assert a + b == a;
    } else {
      var b', last := b[..|b| - 1], b[|b| - 1];
      assert (a + b)[..|a + b| - 1] == a + b';
      assert (a + b)[|a + b| - 1] == last;
      AssembleAppend(a, b');
      calc {
        Assemble(a + b);
        Assemble(a + b') + FileSlices(last);
        Assemble(a) + Assemble(b') + FileSlices(last);
        Assemble(a) + Assemble(b);
      }
    }
  }

  lemma AssembleOne(f: DecodeResult)
    ensures Assemble([f]) == FileSlices(f)
  {
    assert [f][..0] == [];
  }

  /** One more file of the batch appends its slices. */
  lemma AssembleStep(files: seq<DecodeResult>, i: nat)
    requires i < |files|
    ensures Assemble(files[..i + 1]) == Assemble(files[..i]) + FileSlices(files[i])
  {
    assert files[..i + 1][..i] == files[..i];
  }

  /** A file contributes its own slices, contiguously, between the slices of the
      files before it and after it. */
  lemma {:induction false} FileContributesItsSlices(a: seq<DecodeResult>, f: DecodeResult, b: seq<DecodeResult>)
    ensures Assemble(a + [f] + b) == Assemble(a) + FileSlices(f) + Assemble(b)
  {
    var af := a + [f];
    AssembleAppend(af, b);
    AssembleAppend(a, [f]);
    AssembleOne(f);
    assert Assemble(af) == Assemble(a) + FileSlices(f);
  }

  /** A file that fails to decode contributes nothing and takes nothing away
      from the other files of the batch. */
  lemma FailedFileIgnored(a: seq<DecodeResult>, b: seq<DecodeResult>)
    ensures Assemble(a + [DecodeFailed] + b) == Assemble(a + b)
  {
    FileContributesItsSlices(a, DecodeFailed, b);
    AssembleAppend(a, b);
    assert FileSlices(DecodeFailed) == [];
    assert Assemble(a) + [] + Assemble(b) == Assemble(a) + Assemble(b);
  }
}
