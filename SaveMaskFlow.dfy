/**
 * The decision logic of the save-mask request: resolve the slice, check the
 * mask's size and values, scale them to 0/255 for the record, store the raw
 * mask, and build the segmentation record only when the store accepted it.
 */
module SaveMaskFlow {
  import opened Dataset
  import opened VolumeStore
  import opened Segmentation

  datatype SaveError =
    | InvalidVolumeOrSlice
    | MaskSizeMismatch(expected: nat, got: nat)
    | MaskValueOutOfRange
    | StoreFailed
    | WriteFailed

  datatype SaveResult = Saved(record: SegmentationRecord) | Rejected(error: SaveError)

  datatype Checked = Accepted(ref: Slice) | Refused(error: SaveError)

  /** Every entry fits the unsigned 8-bit array the mask is converted to. */
  predicate AllBytes(m: Mask)
  {
    forall k :: 0 <= k < |m| ==> 0 <= m[k] < 256
  }

  predicate Binary(m: Mask)
  {
    forall k :: 0 <= k < |m| ==> m[k] == 0 || m[k] == 1
  }

  /** Scaling by 255 in unsigned 8-bit arithmetic, which wraps modulo 256:
      every byte v becomes its negation modulo 256, so 0 stays 0, 1 becomes
      255 and 2 becomes 254. */
  function ScaleMask(m: Mask): (r: seq<int>)
    ensures |r| == |m|
    ensures forall k :: 0 <= k < |m| ==> 0 <= r[k] < 256 && (r[k] + m[k]) % 256 == 0
    ensures AllBytes(m) ==> forall k :: 0 <= k < |m| ==> r[k] == (256 - m[k]) % 256
  {
    forall k | 0 <= k < |m|
      ensures 0 <= (m[k] * 255) % 256 < 256 && ((m[k] * 255) % 256 + m[k]) % 256 == 0
    {
      TimesByteMaxWraps(m[k]);
    }

    seq(|m|, k requires 0 <= k < |m| => (m[k] * 255) % 256)
  }

  /** v * 255 is v * 256 - v, so modulo 256 it is -v. */
  lemma TimesByteMaxWraps(v: int)
    ensures ((v * 255) % 256 + v) % 256 == 0
  {
    var q := (v * 255) / 256;
    assert v * 255 == q * 256 + (v * 255) % 256;
    assert (v * 255) % 256 + v == (v - q) * 256;
  }

  /** Reading a scaled binary mask back: 255 is foreground. */
  function UnscaleMask(p: seq<int>): Mask
  {
    seq(|p|, k requires 0 <= k < |p| => if p[k] == 255 then 1 else 0)
  }

  /** A 0/1 mask scales to a 0/255 raster of the same length, entry for entry,
      and the raster reads back as the mask. */
  lemma ScaleBinaryMask(m: Mask)
    requires Binary(m)
    ensures |ScaleMask(m)| == |m|
    ensures forall k :: 0 <= k < |m| ==> ScaleMask(m)[k] == (if m[k] == 1 then 255 else 0)
    ensures UnscaleMask(ScaleMask(m)) == m
  {
  }

  /** The checks before anything is stored, in the order the request makes
      them: the slice exists, the mask has one value per pixel, and every value
      converts to an unsigned byte. */
  function CheckSave(vs: Registry, id: VolumeId, idx: nat, m: Mask): (r: Checked)
    ensures r == Refused(InvalidVolumeOrSlice) <==> !IsSlot(vs, id, idx)
    ensures IsSlot(vs, id, idx) && |m| != vs[id].slices[idx].rows * vs[id].slices[idx].columns ==>
      r == Refused(MaskSizeMismatch(vs[id].slices[idx].rows * vs[id].slices[idx].columns, |m|))
    ensures r.Refused? && r.error.MaskSizeMismatch? ==>
      IsSlot(vs, id, idx) &&
      r.error == MaskSizeMismatch(vs[id].slices[idx].rows * vs[id].slices[idx].columns, |m|) &&
      r.error.expected != r.error.got
    ensures r.Accepted? <==>
      IsSlot(vs, id, idx) && |m| == vs[id].slices[idx].rows * vs[id].slices[idx].columns && AllBytes(m)
    ensures r.Accepted? ==> r.ref == vs[id].slices[idx]
    ensures r.Refused? ==> !r.error.StoreFailed?
  {
    if id !in vs || idx >= |vs[id].slices| then Refused(InvalidVolumeOrSlice)
    else
      var ref := vs[id].slices[idx];
      var expected := ref.rows * ref.columns;
      if |m| != expected then Refused(MaskSizeMismatch(expected, |m|))
      else if !AllBytes(m) then Refused(MaskValueOutOfRange)
      else Accepted(ref)
  }

  /** Handles one save-mask request against the manager. `written` is whether
      writing the record file succeeded. On success the raw mask is stored in
      the slot and the record carries the scaled mask on the reference slice's
      geometry. Every error found by the checks leaves the registry unchanged;
      a failed file write is reported after the mask was already stored. */
  method HandleSaveMask(vm: VolumeManager, id: VolumeId, idx: nat, m: Mask, uids: FreshUids, written: bool)
    returns (res: SaveResult)
    requires vm.Valid()
    modifies vm
    ensures vm.Valid()
    ensures res.Saved? <==> CheckSave(old(vm.volumes), id, idx, m).Accepted? && written
    ensures res == Rejected(WriteFailed) <==> CheckSave(old(vm.volumes), id, idx, m).Accepted? && !written
    ensures CheckSave(old(vm.volumes), id, idx, m).Refused? ==>
      res == Rejected(CheckSave(old(vm.volumes), id, idx, m).error) && vm.volumes == old(vm.volumes)
    ensures res == Rejected(WriteFailed) ==>
      vm.volumes == WriteMask(old(vm.volumes), id, idx, m) && ReadMask(vm.volumes, id, idx) == Some(m)
    ensures res != Rejected(StoreFailed)
    ensures res.Saved? ==>
      vm.volumes == WriteMask(old(vm.volumes), id, idx, m) &&
      ReadMask(vm.volumes, id, idx) == Some(m) &&
      res.record == CreateSegmentation(old(vm.volumes)[id].slices[idx], ScaleMask(m), uids) &&
      |res.record.pixelData| == res.record.rows * res.record.columns
  {
    var checked := CheckSave(vm.volumes, id, idx, m);
    if checked.Refused? {
      return Rejected(checked.error);
    }
    var ref := checked.ref;
    var scaled := ScaleMask(m);
    var stored := vm.SaveMask(id, idx, m);
    if stored {
      var record := CreateSegmentation(ref, scaled, uids);
      if written {
        res := Saved(record);
      } else {
        res := Rejected(WriteFailed);
      }
    } else {
      res := Rejected(StoreFailed);
    }
  }

  /** The record written for a successful save of a 0/1 mask is a binary
      raster of the slice's size whose pixels read back as the stored mask. */
  lemma SavedRecordMatchesStoredMask(vs: Registry, id: VolumeId, idx: nat, m: Mask, uids: FreshUids)
    requires WellFormed(vs) && Binary(m)
    requires CheckSave(vs, id, idx, m).Accepted?
    ensures
      var rec := CreateSegmentation(CheckSave(vs, id, idx, m).ref, ScaleMask(m), uids);
      var after := WriteMask(vs, id, idx, m);
      |rec.pixelData| == rec.rows * rec.columns &&
      (forall k :: 0 <= k < |rec.pixelData| ==> rec.pixelData[k] == 0 || rec.pixelData[k] == 255) &&
      ReadMask(after, id, idx) == Some(UnscaleMask(rec.pixelData))
  {
    ScaleBinaryMask(m);
  }

  /** One single-frame 4x4 slice uploaded, a mask one value short refused with
      both counts, a full mask saved and read back, and a mask whose record
      file could not be written reported as failed while it stays in memory. */
  method UploadSaveReadBack(uids: FreshUids)
  {
    var vm := new VolumeManager();
    var header := Header(None, None, None, None, None, None, None, map[]);
    var ds := Slice(Missing, Missing, Missing, 4, 4, seq(16, _ => 0), header);
    var id := vm.AddVolume([Decoded(ds, None)], "1.2.3");
    assert |vm.volumes[id].slices| == 1 by {
      assert Assembly.TotalExpected([Decoded(ds, None)]) == 1 by {
        assert [Decoded(ds, None)][..0] == [];
      }
    }
    assert vm.volumes[id].slices[0].rows == 4 && vm.volumes[id].slices[0].columns == 4 by {
      assert vm.volumes[id].slices[0] in multiset(Assembly.Assemble([Decoded(ds, None)]));
      Assembly.AssembleOne(Decoded(ds, None));
    }
    var short: Mask := seq(15, _ => 1);
    var refused := HandleSaveMask(vm, id, 0, short, uids, true);
    assert refused == Rejected(MaskSizeMismatch(16, 15));
    assert vm.GetMask(id, 0) == None;
    var ones: Mask := seq(16, _ => 1);
    assert Binary(ones);
    var saved := HandleSaveMask(vm, id, 0, ones, uids, true);
    assert saved.Saved?;
    assert vm.GetMask(id, 0) == Some(ones);
    ScaleBinaryMask(ones);
    assert forall k :: 0 <= k < 16 ==> saved.record.pixelData[k] == 255;
    var zeros: Mask := seq(16, _ => 0);
    var unwritten := HandleSaveMask(vm, id, 0, zeros, uids, false);
    assert unwritten == Rejected(WriteFailed);
    assert vm.GetMask(id, 0) == Some(zeros);
  }
}
