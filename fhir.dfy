/**
 * The minimal HL7 FHIR ImagingStudy-shaped record built from a sanitized
 * metadata record: a dict literal whose `None` entries are then dropped.
 */
module Fhir {
  import opened Values

  /** One `{'system': ..., 'value': ...}` identifier. */
  datatype Identifier = Identifier(system: string, value: Value)

  /** The values the record's entries take; `FNone` is Python's None. */
  datatype Field =
    | FNone
    | FText(text: string)
    | FNumber(n: int)
    | FIdentifiers(ids: seq<Identifier>)
    | FReference(reference: string)
    | FValue(v: Value)

  /** A copied sanitized value, None staying None. */
  function Copied(v: Value): Field {
    if v.Null? then FNone else FValue(v)
  }

  /** Python's `a or b`: `a` when truthy, else `b`. */
  function Or(a: Value, b: Value): (r: Value)
    ensures Truthy(r) <==> Truthy(a) || Truthy(b)
  {
    if Truthy(a) then a else b
  }

  /** The study UID: `study_instance_uid`, else `StudyInstanceUID`. */
  function StudyUid(sanitized: map<string, Value>): (r: Value)
    ensures Truthy(r) <==> Truthy(Get(sanitized, "study_instance_uid")) || Truthy(Get(sanitized, "StudyInstanceUID"))
    ensures Truthy(Get(sanitized, "study_instance_uid")) ==> r == Get(sanitized, "study_instance_uid")
  {
    Or(Get(sanitized, "study_instance_uid"), Get(sanitized, "StudyInstanceUID"))
  }

  /** The dict literal, before None entries are dropped. */
  function Draft(sanitized: map<string, Value>): (r: map<string, Field>)
    ensures r.Keys == {"resourceType", "identifier", "status", "subject", "numberOfSeries", "modality", "started"}
  {
    var uid := StudyUid(sanitized);
    var pid := Get(sanitized, "patient_id");
    map["resourceType" := FText("ImagingStudy"),
        "identifier" := FIdentifiers(if Truthy(uid) then [Identifier("urn:dicom:uid", uid)] else []),
        "status" := FText("available"),
        "subject" := (if Truthy(pid) then FReference("Patient/" + Str(pid)) else FNone),
        "numberOfSeries" := FNumber(1),
        "modality" := Copied(Get(sanitized, "modality")),
        "started" := Copied(Get(sanitized, "study_date_time"))]
  }

  /** The entries whose value is not None, with their values. */
  function DropNone(entries: map<string, Field>): (r: map<string, Field>)
    ensures forall k :: k in r <==> k in entries && entries[k] != FNone
    ensures forall k :: k in r ==> r[k] == entries[k]
  {
    map k | k in entries && entries[k] != FNone :: entries[k]
  }

  /** `dicom_to_fhir_imagingstudy(sanitized)` */
  function DicomToFhirImagingStudy(sanitized: map<string, Value>): (r: map<string, Field>)
    ensures forall k :: k in r ==> r[k] != FNone
  {
    DropNone(Draft(sanitized))
  }

  /** Only the literal's keys appear; the four unconditional ones always do. */
  lemma EntriesPresent(sanitized: map<string, Value>)
    ensures var r := DicomToFhirImagingStudy(sanitized);
            && r.Keys <= {"resourceType", "identifier", "status", "subject", "numberOfSeries", "modality", "started"}
            && "resourceType" in r && r["resourceType"] == FText("ImagingStudy")
            && "status" in r && r["status"] == FText("available")
            && "numberOfSeries" in r && r["numberOfSeries"] == FNumber(1)
            && "identifier" in r && r["identifier"].FIdentifiers?
  {
    var d := Draft(sanitized);
    assert d.Keys == {"resourceType", "identifier", "status", "subject", "numberOfSeries", "modality", "started"};
    assert d["resourceType"] == FText("ImagingStudy") && d["status"] == FText("available");
    assert d["numberOfSeries"] == FNumber(1) && d["identifier"].FIdentifiers?;
  }

  /**
   * The identifier list holds one `urn:dicom:uid` entry exactly when either
   * UID field is truthy, preferring `study_instance_uid`.
   */
  lemma IdentifierFromUid(sanitized: map<string, Value>)
    ensures var a := Get(sanitized, "study_instance_uid");
            var b := Get(sanitized, "StudyInstanceUID");
            var ids := DicomToFhirImagingStudy(sanitized)["identifier"].ids;
            && (ids != [] <==> Truthy(a) || Truthy(b))
            && (Truthy(a) ==> ids == [Identifier("urn:dicom:uid", a)])
            && (!Truthy(a) && Truthy(b) ==> ids == [Identifier("urn:dicom:uid", b)])
  {
    var d := Draft(sanitized);
    assert "identifier" in d && d["identifier"] != FNone;
  }

  /** The subject is present exactly when `patient_id` is truthy, as a Patient reference. */
  lemma SubjectIffPatient(sanitized: map<string, Value>)
    ensures var pid := Get(sanitized, "patient_id");
            var r := DicomToFhirImagingStudy(sanitized);
            && ("subject" in r <==> Truthy(pid))
            && (Truthy(pid) ==> r["subject"] == FReference("Patient/" + Str(pid)))
  {
    var d := Draft(sanitized);
    assert "subject" in d;
  }

  /** Modality and start are copied when set and left out when None. */
  lemma OptionalEntries(sanitized: map<string, Value>)
    ensures var r := DicomToFhirImagingStudy(sanitized);
            var m := Get(sanitized, "modality");
            var t := Get(sanitized, "study_date_time");
            && ("modality" in r <==> !m.Null?) && (!m.Null? ==> r["modality"] == FValue(m))
            && ("started" in r <==> !t.Null?) && (!t.Null? ==> r["started"] == FValue(t))
  {
    var d := Draft(sanitized);
    assert "modality" in d && "started" in d;
  }
}
