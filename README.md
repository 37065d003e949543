# SegDICOM volume manager, in Dafny

This project models the core of a small web tool for annotating medical image
volumes. A user uploads a batch of image files. The server decodes them,
splits multi-frame files into single frames and orders the frames into one
stack (a *volume*). The volume is kept in an in-memory registry with one mask
slot per slice. The user then draws a binary mask on a slice and saves it. The
raw mask is stored in that slice's slot, and a segmentation record is built
from the slice's attributes with the mask scaled to 0/255 as its pixels.

Modules, following the parts of `app.py`:

- `Dataset` — the decoded slice (`Slice`) with its optional attributes
  (`Attr<T>`: missing, present, or present but not convertible to a number),
  the header the segmentation copies from, and `DecodeResult`, which is what
  the codec gave for one file.
- `SliceOrder` — the stack ordering: a stable insertion sort on
  (z position, instance number), with each value defaulting to 0, that keeps
  the batch order when any value does not convert.
- `Assembly` — what a batch contributes before ordering: each file gives no
  slice, its single-frame copies, or itself.
- `VolumeStore` — the registry as a value (`Registry`, a map from volume id to
  slices and masks), the operations on it as functions, and the class
  `VolumeManager`, which holds the registry in a field and updates it in
  place (`AddVolume`, `SplitMultiframe`, `SaveMask`, `GetMask`).
- `Segmentation` — the builder of the segmentation record.
- `SaveMaskFlow` — the decision logic of the save-mask request, and a client
  scenario (`UploadSaveReadBack`): one 4x4 slice is uploaded, a short mask is
  refused with the counts (16, 15), a full mask is saved and read back, and a
  mask whose record file cannot be written is reported as failed.

Notes on what the code does:

- A frame count that is present but does not convert is not a failed split.
  `int(ds.NumberOfFrames)` raises inside the per-file handler (app.py:29), so
  the whole file is skipped.
- The storage failure of the save-mask request (app.py:219-220) cannot happen.
  The slice was already resolved at app.py:201-203, so `save_mask` always
  accepts the write. `HandleSaveMask` proves this
  (`res != Rejected(StoreFailed)`).
- The mask is stored in memory (app.py:219) before the record file is
  written (app.py:224). When the write fails the request reports an error
  (app.py:227-229), but the new mask stays stored: memory is then ahead of
  the files on disk. `HandleSaveMask` states this case
  (`res == Rejected(WriteFailed)` implies the slot holds the new mask).

## Model

| member | source | states |
|---|---|---|
| `Dataset.FrameOf` | app.py:50-53 | a frame copy has frame count 1, the given instance number and frame pixels, and the source's position, geometry and header |
| `SliceOrder.Insert` | app.py:62-65 | inserting into a stack adds exactly that slice (multiset) and puts it ahead of every slice with an equal key |
| `SliceOrder.InsertKeepsSorted` | app.py:62-65 | inserting into a sorted stack keeps it sorted by (z, instance number) |
| `SliceOrder.StableSort` | app.py:62-65 | the sort is a permutation of its input, is non-decreasing in the key, and keeps equal-key slices in input order |
| `SliceOrder.SortSlices` | app.py:60-68 | the stack is a permutation of the batch; when every key converts it is sorted and stable; when any key does not convert it is the batch unchanged |
| `SliceOrder.StableSortUnique` | app.py:62-65 | two sorted stacks with the same per-key subsequences are equal, so there is only one stable sort |
| `SliceOrder.SortSlicesIsTheStableSort` | app.py:60-65 | when every key converts, any sorted and stable reordering of the batch equals the stack `SortSlices` gives, which is what a stable `sorted` returns |
| `SliceOrder.WithKeyNonEmpty` | app.py:62-65 | a key occurs in a stack iff its per-key subsequence is non-empty |
| `Assembly.FileSlices` | app.py:26-35 | a file gives 0 slices if it fails to decode or its frame count does not convert, F slices if it has F > 1 frames and splits, and 1 slice otherwise |
| `Assembly.AssembleCount` | app.py:25-35 | the batch has as many slices as the per-file counts add up to |
| `Assembly.AssembleAppend` | app.py:25-32 | the slices of two batches in a row are those of the first followed by those of the second |
| `Assembly.AssembleStep` | app.py:25-32 | one more file of the loop appends exactly that file's slices |
| `Assembly.FileContributesItsSlices` | app.py:25-32 | each file's slices appear contiguously between those of the files before and after it |
| `Assembly.FailedFileIgnored` | app.py:33-35 | a file that fails to decode neither adds slices nor removes any from other files |
| `VolumeStore.NoMasks` | app.py:40 | a new mask list has one slot per slice, all empty |
| `VolumeStore.Register` | app.py:37-41 | registering adds only the new id; it has the given slices and one empty mask slot per slice; no other volume changes; the slot-count invariant is kept |
| `VolumeStore.WriteMask` | app.py:70-74 | a write puts the mask in its slot and changes no slice, no other slot and no other volume; the slot-count invariant is kept |
| `VolumeStore.ReadMask` | app.py:76-79 | a read returns the stored slot, or None for an unknown volume or an index outside the mask list |
| `VolumeStore.ReadAfterWrite` | app.py:70-79 | after a successful write, reading the same slot gives the mask written |
| `VolumeStore.WriteLeavesOtherSlots` | app.py:72 | a write leaves every read of another slot or volume unchanged |
| `VolumeStore.FreshVolumeReadsNone` | app.py:40 | every index of a newly registered volume reads as None |
| `VolumeStore.BatchVolumeContents` | app.py:25-37 | a new volume's stack holds exactly the batch's slices, as many as the per-file counts add up to, sorted when every key converts and in batch order otherwise |
| `VolumeStore.VolumeManager.constructor` | app.py:18-19 | a new manager has an empty registry |
| `VolumeStore.VolumeManager.GetMask` | app.py:76-79 | the manager's read returns the stored slot, or None for an unknown volume or an index outside the mask list; under the invariant a mask is only ever found at a slice of a registered volume |
| `VolumeStore.VolumeManager.AddVolume` | app.py:21-42 | the registry gains the fresh id with the sorted assembled batch and no masks; nothing else changes; the slice count is the sum of the per-file counts |
| `VolumeStore.VolumeManager.SplitMultiframe` | app.py:44-58 | a successful split gives F copies, copy i numbered i+1 holding frame i with the other attributes unchanged; if the count does not convert, the pixels do not decode or a frame is missing, the result is `[ds]` |
| `VolumeStore.VolumeManager.SaveMask` | app.py:70-74 | returns true iff the volume exists and 0 <= idx < slice count; on true only that slot changes, to the given mask; on false the registry is unchanged; the invariant is kept |
| `Segmentation.CreateSegmentation` | app.py:83-151 | rows, columns and identifiers are copied from the reference; patient name and id default to "Anonymous" and "Unknown", spacing to [1.0, 1.0] and thickness to 1.0; the series UID is always new; modality SEG, transfer syntax, content label and description, 8-bit unsigned binary MONOCHROME2 pixels, one dimension organization with a fresh UID, dimension index (1, 1), and exactly one segment, numbered 1, labelled "ManualAnnotation", drawn manually, in the T-D0050/SRT "Tissue" category |
| `Segmentation.RecordDependsOnHeaderAndGeometry` | app.py:92-148 | only the reference's copied header fields and its rows and columns reach the record |
| `SaveMaskFlow.ScaleMask` | app.py:216 | scaling keeps the length and maps each entry v to (v*255) mod 256, the unsigned 8-bit product: the byte that adds to v to give 0 mod 256, (256 - v) mod 256 for a byte |
| `SaveMaskFlow.ScaleBinaryMask` | app.py:216 | a 0/1 mask scales entry by entry to 0/255, and the raster reads back as the mask |
| `SaveMaskFlow.CheckSave` | app.py:201-216 | an unknown volume or index is "not found"; on an existing slice a mask of the wrong length is always refused with the size error carrying exactly (Rows*Columns, len(mask)), before its values are looked at; the request is accepted iff the slot exists, the size matches and every entry fits a byte |
| `SaveMaskFlow.HandleSaveMask` | app.py:199-229 | every error found before the mask is stored (not found, size, byte range) leaves the registry unchanged; otherwise the raw mask is stored and reads back; the record holds the scaled mask on the slice's geometry and the request succeeds iff the record file is written; a failed write is reported with the mask already stored; the storage failure is never reported |
| `SaveMaskFlow.SavedRecordMatchesStoredMask` | app.py:216-222 | for a 0/1 mask the record is a 0/255 raster of Rows*Columns pixels that reads back as the mask stored in memory |

## Left out

- HTTP routes, request parsing, JSON responses and the saving of uploaded files (app.py:153-196, app.py:245-246) are I/O. Only the decisions of the save-mask request are modelled.
- Slice fetch (`serve_slice`) is left out. It is a route that windows pixels for display.
- Writing the segmentation file (`save_as`), its time-stamped file name, the file preamble and the placeholder file name are file I/O. Whether the write succeeded is an input of `HandleSaveMask`.
- Decoding, decompressing and reading pixel arrays are calls into the image library. What they gave for a file is an input: `DecodeFailed`, or a dataset with its frame stack, with None when the pixel array does not decode.
- VolumeStore.VolumeManager.SplitMultiframe: each `ds.copy()` (app.py:50) is modelled as an independent value copy. The copy made by the image library is shallow, and aliasing through it is not modelled: assigning an attribute the source already has may update an element shared with `ds` and the other copies.
- The decoded pixel array is modelled as a list of frames. NumPy's indexing of a pixel array whose shape does not match the frame count is not modelled.
- UID generation is a parameter. The new volume id must not already be registered. The record's UIDs come from `FreshUids`.
- Windowing (`apply_windowing`, app.py:231-243) is floating-point NumPy arithmetic. It also divides by zero for a zero window width.
- Logging (`print`) and the module-level manager instance are left out. The model uses one `VolumeManager` object.
- NaN sort keys are not modelled. Python's `sorted` gives no meaningful order for them.
- Only integer mask entries are modelled. An entry outside 0..255 is refused before anything is stored; NumPy 2 raises there, while older NumPy wrapped (with a deprecation warning from 1.24). Floats, booleans and nested lists in the request body are not modelled.
- Other exceptions that end the save-mask request with a server error are not modelled: a missing `mask` field, or a reference slice without rows or columns.
