/**
 * The volume manager: an in-memory registry from volume id to the volume's
 * ordered slices and a parallel list of per-slice masks. The functions on the
 * registry value state what each operation does; the class `VolumeManager`
 * holds the registry as a field and updates it in place.
 */
module VolumeStore {
  import opened Dataset
  import opened SliceOrder
  import opened Assembly

  type VolumeId = string

  /** A mask as the client sent it: a flat list of per-pixel values. */
  type Mask = seq<int>

  /** One volume: its stack of slices and, per slice, the last mask saved. */
  datatype Volume = Volume(slices: seq<Slice>, masks: seq<Option<Mask>>)

  type Registry = map<VolumeId, Volume>

  /** Every volume has exactly one mask slot per slice. */
  predicate WellFormed(vs: Registry)
  {
    forall id :: id in vs ==> |vs[id].masks| == |vs[id].slices|
  }

  /** The mask list of a new volume: one empty slot per slice. */
  function NoMasks(n: nat): (r: seq<Option<Mask>>)
    ensures |r| == n && forall j :: 0 <= j < n ==> r[j] == None
  {
    seq(n, _ => None)
  }

  /** Registering a new volume: every mask slot starts empty and no other
      volume changes. */
  function Register(vs: Registry, id: VolumeId, slices: seq<Slice>): (r: Registry)
    requires id !in vs
    ensures r.Keys == vs.Keys + {id}
    ensures r[id].slices == slices && |r[id].masks| == |slices|
    ensures forall j :: 0 <= j < |slices| ==> r[id].masks[j] == None
    ensures forall other :: other in vs ==> r[other] == vs[other]
    ensures WellFormed(vs) ==> WellFormed(r)
  {
    vs[id := Volume(slices, NoMasks(|slices|))]
  }

  /** The slot a write may target: a slice of a registered volume. */
  predicate IsSlot(vs: Registry, id: VolumeId, idx: int)
  {
    id in vs && 0 <= idx < |vs[id].slices|
  }

  /** Replacing the mask in one slot, leaving every slice and every other slot
      as it was. */
  function WriteMask(vs: Registry, id: VolumeId, idx: int, m: Mask): (r: Registry)
    requires WellFormed(vs) && IsSlot(vs, id, idx)
    ensures WellFormed(r) && r.Keys == vs.Keys
    ensures forall other :: other in vs ==> r[other].slices == vs[other].slices
    ensures forall other :: other in vs && other != id ==> r[other] == vs[other]
    ensures r[id].masks[idx] == Some(m)
    ensures forall j :: 0 <= j < |vs[id].masks| && j != idx ==> r[id].masks[j] == vs[id].masks[j]
  {
    vs[id := vs[id].(masks := vs[id].masks[idx := Some(m)])]
  }

  /** The lenient read: the stored mask, or None for an unknown volume, an index
      outside the volume, or a slot never written. */
  function ReadMask(vs: Registry, id: VolumeId, idx: int): (r: Option<Mask>)
    ensures !(id in vs && 0 <= idx < |vs[id].masks|) ==> r == None
    ensures id in vs && 0 <= idx < |vs[id].masks| ==> r == vs[id].masks[idx]
  {
    if id in vs && 0 <= idx < |vs[id].masks| then vs[id].masks[idx] else None
  }

  /** A read of the slot just written gives back the mask written. */
  lemma ReadAfterWrite(vs: Registry, id: VolumeId, idx: int, m: Mask)
    requires WellFormed(vs) && IsSlot(vs, id, idx)
    ensures ReadMask(WriteMask(vs, id, idx, m), id, idx) == Some(m)
  {
  }

  /** A write changes only its own slot: every other read is as before. */
  lemma WriteLeavesOtherSlots(vs: Registry, id: VolumeId, idx: int, m: Mask, id': VolumeId, idx': int)
    requires WellFormed(vs) && IsSlot(vs, id, idx)
    requires id' != id || idx' != idx
    ensures ReadMask(WriteMask(vs, id, idx, m), id', idx') == ReadMask(vs, id', idx')
  {
  }

  /** Every slot of a newly registered volume reads as None. */
  lemma FreshVolumeReadsNone(vs: Registry, id: VolumeId, slices: seq<Slice>, idx: int)
    requires id !in vs
    ensures ReadMask(Register(vs, id, slices), id, idx) == None
  {
  }

  /** The volume an upload batch creates: its stack is the sorted batch. */
  function BatchVolume(files: seq<DecodeResult>): seq<Slice>
  {
    SortSlices(Assemble(files))
  }

  /** The stack holds exactly the slices the files give, as many as their
      expected counts add up to, sorted when every key converts. */
  lemma BatchVolumeContents(files: seq<DecodeResult>)
    ensures multiset(BatchVolume(files)) == multiset(Assemble(files))
    ensures |BatchVolume(files)| == TotalExpected(files)
    ensures AllKeysConvert(Assemble(files)) ==> Sorted(BatchVolume(files))
    ensures !AllKeysConvert(Assemble(files)) ==> BatchVolume(files) == Assemble(files)
  {
    AssembleCount(files);
  }

  class VolumeManager {
    var volumes: Registry

    ghost predicate Valid()
      reads this
    {
      WellFormed(volumes)
    }

    constructor ()
      ensures Valid() && volumes == map[]
    {
      volumes := map[];
    }

    /** Reads one uploaded batch into a new volume registered under `newId`
        (the id generator's fresh value). */
    method AddVolume(files: seq<DecodeResult>, newId: VolumeId) returns (id: VolumeId)
      requires Valid() && newId !in volumes
      modifies this
      ensures Valid() && id == newId
      ensures volumes == Register(old(volumes), newId, BatchVolume(files))
      ensures |volumes[id].slices| == TotalExpected(files)
    {
      var all: seq<Slice> := [];
      for i := 0 to |files|
        invariant all == Assemble(files[..i])
        invariant volumes == old(volumes)
      {
        AssembleStep(files, i);
        var added: seq<Slice> := [];
        match files[i] {
          case DecodeFailed =>
          case Decoded(ds, frames) =>
            match ds.numberOfFrames {
              case Malformed =>
              case Missing =>
                added := [ds];
              case Present(n) =>
                if n > 1 {
                  added := SplitMultiframe(ds, frames);
                } else {
                  added := [ds];
                }
            }
        }
        assert added == FileSlices(files[i]);
        all := all + added;
      }
      assert files[..|files|] == files;
      BatchVolumeContents(files);
      all := SortSlices(all);
      volumes := volumes[newId := Volume(all, NoMasks(|all|))];
      id := newId;
    }

    /** Splits a multi-frame dataset into single-frame copies numbered from 1,
        or keeps it whole when the split fails part-way. */
    method SplitMultiframe(ds: Slice, frames: Option<seq<Pixels>>) returns (r: seq<Slice>)
      ensures r == Split(ds, frames)
      ensures SplitSucceeds(ds, frames) ==>
        |r| == (if ds.numberOfFrames.value < 0 then 0 else ds.numberOfFrames.value) &&
        forall i :: 0 <= i < |r| ==>
          r[i].numberOfFrames == Present(1) && r[i].instanceNumber == Present(i + 1) &&
          r[i].pixelData == frames.value[i] && SameGeometryAndHeader(r[i], ds)
      ensures !SplitSucceeds(ds, frames) ==> r == [ds]
    {
      if !ds.numberOfFrames.Present? || frames.None? {
        return [ds];
      }
      var n := ds.numberOfFrames.value;
      var pixels := frames.value;
      r := [];
      var i := 0;
      while i < n
        invariant 0 <= i <= n || (n < 0 && i == 0)
        invariant i <= |pixels|
        invariant |r| == i
        invariant forall j :: 0 <= j < i ==> r[j] == FrameOf(ds, pixels[j], j + 1)
      {
        if i >= |pixels| {
          return [ds];
        }
        r := r + [FrameOf(ds, pixels[i], i + 1)];
        i := i + 1;
      }
    }

    /** Stores a mask for one slice; false, with nothing changed, for an
        unknown volume or an index outside it. */
    method SaveMask(id: VolumeId, idx: int, m: Mask) returns (ok: bool)
      requires Valid()
      modifies this
      ensures Valid()
      ensures ok <==> IsSlot(old(volumes), id, idx)
      ensures ok ==> volumes == WriteMask(old(volumes), id, idx, m)
      ensures !ok ==> volumes == old(volumes)
    {
      if id in volumes && 0 <= idx < |volumes[id].slices| {
        var v := volumes[id];
        volumes := volumes[id := v.(masks := v.masks[idx := Some(m)])];
        return true;
      }
      return false;
    }

    /** The stored mask of one slice. The read is lenient: an unknown volume or
        an index outside the volume gives None instead of failing. */
    function GetMask(id: VolumeId, idx: int): (r: Option<Mask>)
      reads this
      ensures !(id in volumes && 0 <= idx < |volumes[id].masks|) ==> r == None
      ensures id in volumes && 0 <= idx < |volumes[id].masks| ==> r == volumes[id].masks[idx]
      ensures Valid() && r.Some? ==> IsSlot(volumes, id, idx)
    {
      ReadMask(volumes, id, idx)
    }
  }
}
