/**
 * Triage flags computed from one DICOM dataset: the possible-PHI
 * warnings (`check_phi`) and the urgency heuristic (`is_urgent`).
 */
module StudyFlags {
  import opened Wrappers
  import PyText
  import opened Values

  /** A DICOM tag: group and element numbers. */
  datatype Tag = Tag(group: nat, elem: nat)

  /** pydicom's `Tag.is_private`: the group number is odd. */
  predicate IsPrivate(t: Tag) {
    t.group % 2 == 1
  }

  /**
   * The parts of a dataset the flags read: element values by keyword
   * (`ds.get(keyword)`) and the tags present (`ds.keys()`), in order.
   */
  datatype Dataset = Dataset(elements: map<string, Value>, tags: seq<Tag>)

  // ------------------------------------------------------------ check_phi

  /** Identifying attributes checked before the private-tag count. */
  const PHI_KEYWORDS: seq<string> :=
    ["PatientName", "PatientID", "PatientAddress", "OtherPatientIDsSequence",
     "ReferringPhysicianName", "StudyComments", "InstitutionName", "StationName"]

  /** Request attributes checked after the private-tag count. */
  const REQUEST_KEYWORDS: seq<string> :=
    ["RequestingService", "RequestingPhysician", "RequestingPhysicianName"]

  /** The keywords of `keys` whose value in `ds` is truthy, in order. */
  function PresentKeywords(ds: Dataset, keys: seq<string>): (r: seq<string>)
    ensures |r| <= |keys|
    ensures forall k :: k in r <==> k in keys && Truthy(Get(ds.elements, k))
  {
    if |keys| == 0 then []
    else
      var last := keys[|keys| - 1];
      assert keys == keys[..|keys| - 1] + [last];
      PresentKeywords(ds, keys[..|keys| - 1])
      + (if Truthy(Get(ds.elements, last)) then [last] else [])
  }

  /** The private tags among `tags`, in order. */
  function PrivateTags(tags: seq<Tag>): (r: seq<Tag>)
    ensures |r| <= |tags|
    ensures forall t :: t in r <==> t in tags && IsPrivate(t)
  {
    if |tags| == 0 then []
    else
      var last := tags[|tags| - 1];
      assert tags == tags[..|tags| - 1] + [last];
      PrivateTags(tags[..|tags| - 1]) + (if IsPrivate(last) then [last] else [])
  }

  /** The warning that reports `n` private tags. */
  function PrivateLine(n: nat): string {
    "Private tags: " + PyText.IntToStr(n)
  }

  /** The count can be read back from the warning after its 14-character label. */
  lemma PrivateLineCount(n: nat)
    ensures |PrivateLine(n)| > 14 && PrivateLine(n)[..14] == "Private tags: "
    ensures PyText.ParseInt(PrivateLine(n)[14..]) == Some(n)
  {
    assert PrivateLine(n)[14..] == PyText.IntToStr(n);
    PyText.ParseIntOfIntToStr(n);
  }

  /**
   * The warnings, in the order they are produced: the identifying keywords
   * present, the private-tag count when there are any, the request keywords
   * present.
   */
  function PhiWarnings(ds: Dataset): (r: seq<string>)
    ensures |r| <= |PHI_KEYWORDS| + 1 + |REQUEST_KEYWORDS|
  {
    var n := |PrivateTags(ds.tags)|;
    PresentKeywords(ds, PHI_KEYWORDS)
    + (if n > 0 then [PrivateLine(n)] else [])
    + PresentKeywords(ds, REQUEST_KEYWORDS)
  }

  /** The keywords whose values are truthy, in order: the loop `check_phi` runs twice. */
  method CollectPresent(ds: Dataset, keys: seq<string>) returns (found: seq<string>)
    ensures found == PresentKeywords(ds, keys)
  {
    found := [];
    var i := 0;
    while i < |keys|
      invariant 0 <= i <= |keys|
      invariant found == PresentKeywords(ds, keys[..i])
    {
      assert keys[..i + 1][..i] == keys[..i];
      if Truthy(Get(ds.elements, keys[i])) {
        found := found + [keys[i]];
      }
      i := i + 1;
    }
    assert keys[..i] == keys;
  }

  /** The private tags among `tags`, in order. */
  method CollectPrivate(tags: seq<Tag>) returns (priv: seq<Tag>)
    ensures priv == PrivateTags(tags)
  {
    priv := [];
    var j := 0;
    while j < |tags|
      invariant 0 <= j <= |tags|
      invariant priv == PrivateTags(tags[..j])
    {
      assert tags[..j + 1][..j] == tags[..j];
      if IsPrivate(tags[j]) {
        priv := priv + [tags[j]];
      }
      j := j + 1;
    }
    assert tags[..j] == tags;
  }

  /** `check_phi(ds)` */
  method CheckPhi(ds: Dataset) returns (phi: seq<string>)
    ensures phi == PhiWarnings(ds)
  {
    phi := CollectPresent(ds, PHI_KEYWORDS);
    var priv := CollectPrivate(ds.tags);
    if |priv| > 0 {
      phi := phi + ["Private tags: " + PyText.IntToStr(|priv|)];
    }
    var requested := CollectPresent(ds, REQUEST_KEYWORDS);
    phi := phi + requested;
  }

  /** The private-tag warning never coincides with a keyword. */
  lemma PrivateLineNotKeyword(n: nat)
    ensures PrivateLine(n) !in PHI_KEYWORDS + REQUEST_KEYWORDS
  {
    var line := PrivateLine(n);
    assert line[1] == 'r';
    KeywordsSecondChar();
  }

  /** No checked keyword has 'r' as its second letter. */
  lemma KeywordsSecondChar()
    ensures forall k :: k in PHI_KEYWORDS + REQUEST_KEYWORDS ==> |k| > 1 && k[1] != 'r'
  {
    forall k | k in PHI_KEYWORDS + REQUEST_KEYWORDS
      ensures |k| > 1 && k[1] != 'r'
    {
    }
  }

  /** A checked keyword is reported exactly when its value is truthy. */
  lemma PhiReportsKeyword(ds: Dataset, k: string)
    requires k in PHI_KEYWORDS + REQUEST_KEYWORDS
    ensures k in PhiWarnings(ds) <==> Truthy(Get(ds.elements, k))
  {
    var n := |PrivateTags(ds.tags)|;
    PrivateLineNotKeyword(n);
    assert k != PrivateLine(n);
    assert k in PHI_KEYWORDS || k in REQUEST_KEYWORDS;
  }

  /** The private-tag count is reported exactly when some tag is private. */
  lemma PhiReportsPrivate(ds: Dataset)
    ensures PrivateLine(|PrivateTags(ds.tags)|) in PhiWarnings(ds)
            <==> exists t :: t in ds.tags && IsPrivate(t)
  {
    var n := |PrivateTags(ds.tags)|;
    PrivateLineNotKeyword(n);
    if n > 0 {
      assert PrivateTags(ds.tags)[0] in PrivateTags(ds.tags);
    } else {
      assert PrivateLine(n) !in PresentKeywords(ds, PHI_KEYWORDS);
      assert PrivateLine(n) !in PresentKeywords(ds, REQUEST_KEYWORDS);
    }
  }

  /** Nothing but checked keywords and the private-tag count is reported. */
  lemma PhiReportsOnly(ds: Dataset, w: string)
    requires w in PhiWarnings(ds)
    ensures w in PHI_KEYWORDS + REQUEST_KEYWORDS || w == PrivateLine(|PrivateTags(ds.tags)|)
  {
  }

  // ------------------------------------------------------------ is_urgent

  /** Description words that mark a head study. */
  const HEAD_KEYWORDS: seq<string> :=
    ["BRAIN", "HEAD", "STROKE", "TRAUMA", "INTRACRANIAL", "ICH", "HEMORRHAGE"]

  const HEAD_REASON: string := "Head study with stroke/trauma keywords"
  const ANGIO_REASON: string := "Angio/CTA study"
  const FAST_REASON: string := "FAST ultrasound"
  const ELDERLY_REASON: string := "Elderly patient + brain imaging"

  /** The upper-cased text of an element, or the empty text when it is absent. */
  function UpperField(ds: Dataset, keyword: string): (r: string)
    ensures forall i :: 0 <= i < |r| ==> !PyText.IsLowerAscii(r[i])
    ensures keyword !in ds.elements ==> r == ""
    ensures keyword in ds.elements ==>
              |r| == |Str(ds.elements[keyword])| &&
              forall i :: 0 <= i < |r| ==> r[i] == PyText.UpperChar(Str(ds.elements[keyword])[i])
  {
    PyText.Upper(if keyword in ds.elements then Str(ds.elements[keyword]) else "")
  }

  predicate CrossSectional(mod: string) {
    mod == "CT" || mod == "MR"
  }

  /** A CT or MR study whose description names a head keyword. */
  predicate HeadRule(mod: string, desc: string) {
    CrossSectional(mod) && exists k :: k in HEAD_KEYWORDS && PyText.Contains(desc, k)
  }

  predicate AngioRule(desc: string) {
    PyText.Contains(desc, "ANGIO") || PyText.Contains(desc, "CTA") || PyText.Contains(desc, "CT ANGIO")
  }

  predicate FastRule(mod: string, desc: string) {
    mod == "US" && PyText.Contains(desc, "FAST")
  }

  /**
   * The age in years when the age is a string ending in 'Y' whose remainder
   * `int()` accepts; None where the source skips the rule (including the
   * `ValueError` it swallows).
   */
  function AgeYears(age: Value): (r: Option<int>)
    ensures r.Some? ==> age.Text? && PyText.EndsWith(age.s, 'Y')
  {
    if age.Text? && PyText.EndsWith(age.s, 'Y') then PyText.ParseInt(PyText.RStripChar(age.s, 'Y'))
    else None
  }

  predicate ElderlyRule(mod: string, desc: string, age: Value) {
    && AgeYears(age).Some? && AgeYears(age).value >= 65
    && CrossSectional(mod) && PyText.Contains(desc, "BRAIN")
  }

  /** The reasons, one per rule that fires, in the order the rules are tried. */
  function UrgencyReasons(mod: string, desc: string, age: Value): (r: seq<string>)
    ensures |r| <= 4
  {
    (if HeadRule(mod, desc) then [HEAD_REASON] else [])
    + (if AngioRule(desc) then [ANGIO_REASON] else [])
    + (if FastRule(mod, desc) then [FAST_REASON] else [])
    + (if ElderlyRule(mod, desc, age) then [ELDERLY_REASON] else [])
  }

  /** Whether some keyword occurs in the description, stopping at the first hit. */
  method AnyContained(desc: string, keys: seq<string>) returns (hit: bool)
    ensures hit <==> exists k :: k in keys && PyText.Contains(desc, k)
  {
    hit := false;
    var i := 0;
    while i < |keys| && !hit
      invariant 0 <= i <= |keys|
      invariant hit <==> exists k :: k in keys[..i] && PyText.Contains(desc, k)
    {
      ghost var seen := keys[..i];
      assert keys[..i + 1] == seen + [keys[i]];
      hit := PyText.Contains(desc, keys[i]);
      if hit {
        assert keys[i] in keys[..i + 1];
      } else {
        forall k | k in keys[..i + 1]
          ensures !PyText.Contains(desc, k)
        {
          if k != keys[i] {
            assert k in seen;
          }
        }
      }
      i := i + 1;
    }
    if !hit {
      assert keys[..i] == keys;
    } else {
      assert forall k :: k in keys[..i] ==> k in keys;
    }
  }

  /**
   * `is_urgent(ds)`, with the computed patient age passed in as `age`
   * (`compute_age_from_ds` is not part of this model).
   */
  method IsUrgent(ds: Dataset, age: Value) returns (urgent: bool, reasons: seq<string>)
    ensures reasons == UrgencyReasons(UpperField(ds, "Modality"), UpperField(ds, "StudyDescription"), age)
    ensures urgent <==> |reasons| > 0
  {
    reasons := [];
    var mod := UpperField(ds, "Modality");
    var desc := UpperField(ds, "StudyDescription");
    if mod == "CT" || mod == "MR" {
      var hit := AnyContained(desc, HEAD_KEYWORDS);
      if hit {
        reasons := reasons + [HEAD_REASON];
      }
    }
    assert reasons == if HeadRule(mod, desc) then [HEAD_REASON] else [];
    ghost var afterHead := reasons;
    if PyText.Contains(desc, "ANGIO") || PyText.Contains(desc, "CTA") || PyText.Contains(desc, "CT ANGIO") {
      reasons := reasons + [ANGIO_REASON];
    }
    assert reasons == afterHead + if AngioRule(desc) then [ANGIO_REASON] else [];
    ghost var afterAngio := reasons;
    if mod == "US" && PyText.Contains(desc, "FAST") {
      reasons := reasons + [FAST_REASON];
    }
    assert reasons == afterAngio + if FastRule(mod, desc) then [FAST_REASON] else [];
    ghost var afterFast := reasons;
    var elderly := ElderlyCheck(mod, desc, age);
    if elderly {
      reasons := reasons + [ELDERLY_REASON];
    }
    assert reasons == afterFast + if ElderlyRule(mod, desc, age) then [ELDERLY_REASON] else [];
    urgent := |reasons| > 0;
  }

  /** The age test of `is_urgent`: a 'Y' age of at least 65 on a CT or MR brain study. */
  method ElderlyCheck(mod: string, desc: string, age: Value) returns (fires: bool)
    ensures fires <==> ElderlyRule(mod, desc, age)
  {
    fires := false;
    if age.Text? && PyText.EndsWith(age.s, 'Y') {
      var years := PyText.ParseInt(PyText.RStripChar(age.s, 'Y'));
      if years.Some? && years.value >= 65 && (mod == "CT" || mod == "MR") && PyText.Contains(desc, "BRAIN") {
        fires := true;
      }
    }
  }

  /** Each reason is reported exactly when its rule fires. */
  lemma ReasonsMatchRules(mod: string, desc: string, age: Value)
    ensures HEAD_REASON in UrgencyReasons(mod, desc, age) <==> HeadRule(mod, desc)
    ensures ANGIO_REASON in UrgencyReasons(mod, desc, age) <==> AngioRule(desc)
    ensures FAST_REASON in UrgencyReasons(mod, desc, age) <==> FastRule(mod, desc)
    ensures ELDERLY_REASON in UrgencyReasons(mod, desc, age) <==> ElderlyRule(mod, desc, age)
  {
    assert HEAD_REASON != ANGIO_REASON && HEAD_REASON != FAST_REASON && HEAD_REASON != ELDERLY_REASON;
    assert ANGIO_REASON != FAST_REASON && ANGIO_REASON != ELDERLY_REASON;
    assert FAST_REASON != ELDERLY_REASON;
  }

  /** A study is urgent exactly when at least one rule fires. */
  lemma UrgentIffSomeRule(mod: string, desc: string, age: Value)
    ensures |UrgencyReasons(mod, desc, age)| > 0
            <==> HeadRule(mod, desc) || AngioRule(desc) || FastRule(mod, desc) || ElderlyRule(mod, desc, age)
  {
  }

  /** The elderly-brain rule never fires alone: it implies the head rule. */
  lemma ElderlyImpliesHead(mod: string, desc: string, age: Value)
    requires ElderlyRule(mod, desc, age)
    ensures HeadRule(mod, desc)
  {
    assert HEAD_KEYWORDS[0] == "BRAIN";
  }

  /** The 'CT ANGIO' test adds nothing: such a description contains 'ANGIO'. */
  lemma CtAngioRedundant(desc: string)
    ensures AngioRule(desc) <==> PyText.Contains(desc, "ANGIO") || PyText.Contains(desc, "CTA")
  {
    if PyText.Contains(desc, "CT ANGIO") {
      PyText.ContainsInner(desc, "CT ANGIO", 3, 8);
      assert "CT ANGIO"[3..8] == "ANGIO";
    }
  }

  /** An age string such as "70Y" reads as 70 years. */
  lemma AgeYearsOfRendered(n: nat)
    ensures AgeYears(Text(PyText.IntToStr(n) + "Y")) == Some(n)
  {
    var s := PyText.IntToStr(n);
    var t := s + "Y";
    assert PyText.RStripChar(t, 'Y') == s by {
      assert !PyText.EndsWith(s, 'Y');
      assert t[..|t| - 1] == s;
    }
    PyText.ParseIntOfIntToStr(n);
  }

  /**
   * A DICOM AS value such as "065Y" (zero-padded digits, then the unit
   * letter) reads as the number its digits spell.
   */
  lemma AgeYearsOfDigits(d: string)
    requires |d| > 0 && forall i :: 0 <= i < |d| ==> PyText.IsDigit(d[i])
    ensures AgeYears(Text(d + "Y")) == Some(PyText.DigitsValue(d))
  {
    var t := d + "Y";
    assert PyText.EndsWith(t, 'Y');
    assert PyText.RStripChar(t, 'Y') == d by {
      assert t[..|t| - 1] == d;
      assert !PyText.EndsWith(d, 'Y');
    }
    PyText.ParseIntOfDigits(d);
  }

  /** The AS value "065Y" passes the elderly age test. */
  lemma AgeYearsOfPadded()
    ensures AgeYears(Text("065Y")) == Some(65)
  {
    var d := "065";
    assert PyText.IsDigit(d[0]) && PyText.IsDigit(d[1]) && PyText.IsDigit(d[2]);
    AgeYearsOfDigits(d);
    assert d + "Y" == "065Y";
    ValueOf065();
  }

  lemma ValueOf065()
    ensures PyText.DigitsValue("065") == 65
  {
    var d := "065";
    assert d[..2] == "06";
    assert d[..2][..1] == "0";
    assert PyText.DigitsValue("0") == 0;
    assert PyText.DigitsValue("06") == 6;
  }
}
