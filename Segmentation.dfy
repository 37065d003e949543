/**
 * The segmentation record written for one saved mask: a dataset of the
 * segmentation storage class whose identifiers and geometry come from the
 * reference slice (or documented defaults), with fixed classification
 * constants, one manually drawn segment, and the scaled mask as pixels.
 */
module Segmentation {
  import opened Dataset

  const SEGMENTATION_STORAGE := "1.2.840.10008.5.1.4.1.1.66.4"
  const EXPLICIT_VR_LITTLE_ENDIAN := "1.2.840.10008.1.2.1"
  const DEFAULT_PATIENT_NAME := "Anonymous"
  const DEFAULT_PATIENT_ID := "Unknown"
  const DEFAULT_PIXEL_SPACING: seq<real> := [1.0, 1.0]
  const DEFAULT_SLICE_THICKNESS: real := 1.0

  /** The values the UID generator hands out while one record is built, one
      per call it makes. */
  datatype FreshUids = FreshUids(
    mediaStorageInstance: string,
    study: string,
    series: string,
    frameOfReference: string,
    dimensionOrganization: string)

  datatype CodedConcept = CodedConcept(codeValue: string, codingScheme: string, meaning: string)

  datatype Segment = Segment(number: nat, segmentLabel: string, algorithmType: string, category: CodedConcept)

  datatype SegmentationRecord = SegmentationRecord(
    // file meta information
    mediaStorageSopClassUid: string,
    mediaStorageSopInstanceUid: string,
    transferSyntaxUid: string,
    // patient, study and series
    patientName: string,
    patientId: string,
    studyInstanceUid: string,
    seriesInstanceUid: string,
    frameOfReferenceUid: string,
    // segmentation image description
    modality: string,
    sopClassUid: string,
    contentLabel: string,
    contentDescription: string,
    samplesPerPixel: nat,
    photometricInterpretation: string,
    bitsAllocated: nat,
    bitsStored: nat,
    highBit: nat,
    pixelRepresentation: nat,
    lossyImageCompression: string,
    segmentationType: string,
    dimensionOrganizationUids: seq<string>,
    segments: seq<Segment>,
    // shared and per-frame functional groups
    pixelSpacing: seq<real>,
    sliceThickness: real,
    dimensionIndexValues: seq<int>,
    // pixel data
    rows: nat,
    columns: nat,
    pixelData: seq<int>)

  function OrElse<T>(o: Option<T>, default: T): T
  {
    if o.Some? then o.value else default
  }

  /** The record for `pixels` drawn on `ref`. */
  function CreateSegmentation(ref: Slice, pixels: seq<int>, uids: FreshUids): (r: SegmentationRecord)
    // geometry and pixels
    ensures r.rows == ref.rows && r.columns == ref.columns && r.pixelData == pixels
    // copied when present, defaulted otherwise
    ensures ref.header.patientName.Some? ==> r.patientName == ref.header.patientName.value
    ensures ref.header.patientName.None? ==> r.patientName == DEFAULT_PATIENT_NAME
    ensures ref.header.patientId.Some? ==> r.patientId == ref.header.patientId.value
    ensures ref.header.patientId.None? ==> r.patientId == DEFAULT_PATIENT_ID
    ensures ref.header.studyInstanceUid.Some? ==> r.studyInstanceUid == ref.header.studyInstanceUid.value
    ensures ref.header.studyInstanceUid.None? ==> r.studyInstanceUid == uids.study
    ensures ref.header.frameOfReferenceUid.Some? ==> r.frameOfReferenceUid == ref.header.frameOfReferenceUid.value
    ensures ref.header.frameOfReferenceUid.None? ==> r.frameOfReferenceUid == uids.frameOfReference
    ensures ref.header.pixelSpacing.Some? ==> r.pixelSpacing == ref.header.pixelSpacing.value
    ensures ref.header.pixelSpacing.None? ==> r.pixelSpacing == DEFAULT_PIXEL_SPACING
    ensures ref.header.sliceThickness.Some? ==> r.sliceThickness == ref.header.sliceThickness.value
    ensures ref.header.sliceThickness.None? ==> r.sliceThickness == DEFAULT_SLICE_THICKNESS
    // the series is always new, never the reference's
    ensures r.seriesInstanceUid == uids.series && r.mediaStorageSopInstanceUid == uids.mediaStorageInstance
    // a binary 8-bit segmentation with exactly one segment, numbered 1
    ensures r.modality == "SEG" && r.sopClassUid == SEGMENTATION_STORAGE
    ensures r.mediaStorageSopClassUid == SEGMENTATION_STORAGE
    ensures r.transferSyntaxUid == EXPLICIT_VR_LITTLE_ENDIAN
    ensures r.contentLabel == "ANNOTATION" && r.contentDescription == "Manual segmentation"
    ensures r.samplesPerPixel == 1 && r.photometricInterpretation == "MONOCHROME2"
    ensures r.bitsAllocated == 8 && r.bitsStored == 8 && r.highBit == 7 && r.pixelRepresentation == 0
    ensures r.lossyImageCompression == "00"
    ensures r.segmentationType == "BINARY"
    ensures r.dimensionOrganizationUids == [uids.dimensionOrganization]
    ensures |r.segments| == 1 && r.segments[0].number == 1
    ensures r.segments[0].segmentLabel == "ManualAnnotation" && r.segments[0].algorithmType == "MANUAL"
    ensures r.segments[0].category == CodedConcept("T-D0050", "SRT", "Tissue")
    // one frame, at dimension index (1, 1)
    ensures r.dimensionIndexValues == [1, 1]
  {
    SegmentationRecord(
      mediaStorageSopClassUid := SEGMENTATION_STORAGE,
      mediaStorageSopInstanceUid := uids.mediaStorageInstance,
      transferSyntaxUid := EXPLICIT_VR_LITTLE_ENDIAN,
      patientName := OrElse(ref.header.patientName, DEFAULT_PATIENT_NAME),
      patientId := OrElse(ref.header.patientId, DEFAULT_PATIENT_ID),
      studyInstanceUid := OrElse(ref.header.studyInstanceUid, uids.study),
      seriesInstanceUid := uids.series,
      frameOfReferenceUid := OrElse(ref.header.frameOfReferenceUid, uids.frameOfReference),
      modality := "SEG",
      sopClassUid := SEGMENTATION_STORAGE,
      contentLabel := "ANNOTATION",
      contentDescription := "Manual segmentation",
      samplesPerPixel := 1,
      photometricInterpretation := "MONOCHROME2",
      bitsAllocated := 8,
      bitsStored := 8,
      highBit := 7,
      pixelRepresentation := 0,
      lossyImageCompression := "00",
      segmentationType := "BINARY",
      dimensionOrganizationUids := [uids.dimensionOrganization],
      segments := [Segment(1, "ManualAnnotation", "MANUAL", CodedConcept("T-D0050", "SRT", "Tissue"))],
      pixelSpacing := OrElse(ref.header.pixelSpacing, DEFAULT_PIXEL_SPACING),
      sliceThickness := OrElse(ref.header.sliceThickness, DEFAULT_SLICE_THICKNESS),
      dimensionIndexValues := [1, 1],
      rows := ref.rows,
      columns := ref.columns,
      pixelData := pixels)
  }

  /** Only the reference's header and geometry reach the record: its position,
      instance number, frame count, own pixels, own series and every other
      attribute do not. */
  lemma RecordDependsOnHeaderAndGeometry(a: Slice, b: Slice, pixels: seq<int>, uids: FreshUids)
    requires a.rows == b.rows && a.columns == b.columns
    requires a.header.(seriesInstanceUid := None, other := map[]) == b.header.(seriesInstanceUid := None, other := map[])
    ensures CreateSegmentation(a, pixels, uids) == CreateSegmentation(b, pixels, uids)
  {
    assert a.header.patientName == b.header.patientName;
    assert a.header.patientId == b.header.patientId;
    assert a.header.studyInstanceUid == b.header.studyInstanceUid;
    assert a.header.frameOfReferenceUid == b.header.frameOfReferenceUid;
    assert a.header.pixelSpacing == b.header.pixelSpacing;
    assert a.header.sliceThickness == b.header.sliceThickness;
  }
}
