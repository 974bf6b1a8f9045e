# dicom-tool core, modelled in Dafny

This project models the deterministic core of `lib/dicom-tool.py`, a DICOM
metadata extractor and batch aggregator. It covers:

- **Anonymization** of the flat, JSON-ready metadata record (the
  "sanitized" dict). Each configured tag is resolved to a key of the
  record. The key with the same spelling, the Title Case spelling or the
  spaced spelling wins. Failing that, the first key in insertion order
  whose lower-case, underscore form matches. The key's value is then
  replaced by a salted pseudonym (`anon_…`) or by `REDACTED`. There is
  also the choice of which tags to anonymize.
- **Triage flags**: the possible-PHI warnings (`check_phi`) and the
  urgency heuristic with its four rules (`is_urgent`).
- **The `--output` argument**: splitting and classifying the items, and
  grouping them by output type.
- **Time helpers**:
  - the integer breakdown of an elapsed time into 365-day years,
    30-day months, days, hours, minutes and seconds;
  - its rendering as text;
  - the parsing of a DICOM TM value (section 6.2 of DICOM PS3.5).
- **The FHIR mapping**: the minimal HL7 FHIR ImagingStudy-shaped record,
  with its `None` entries dropped.

Modules:

- `Wrappers`: `Option`, for Python's `None`.
- `PyText`: the Python string semantics the core relies on. This covers
  `strip()` with Python's whitespace set, `split`, `join`, `replace`, ASCII
  `lower`/`upper`/`title`, `in`, `endswith`, `rstrip(c)`, `ljust`,
  `rsplit(c, 1)`, `str(int)` and `int(str)` with signs and
  underscores.
- `Values`: dict values, with Python's `str()` and truth value.
- `Anonymization`. The record is a `class Record` that keeps its keys in
  insertion order and its values in a map. `ApplyAnonymizationToSanitized`
  rewrites the record in place. It is proved against the fold
  `AnonymizeTags`, and the stated properties are proved about that fold.
- `StudyFlags`: `CheckPhi` and `IsUrgent` build their lists step by step.
  Each is proved equal to a specification function, and lemmas state what
  that function means.
- `OutputSpec`: `ParseOutputItems` grows its map with
  setdefault-and-append. It is proved equal to `Group(Entries(...))`, and
  `Group` is proved to agree with the independent per-type filter
  `PathsOf`.
- `DicomTime`: the breakdown, the rendering and TM parsing.
- `Fhir`: the FHIR record, modelled as a map.

Inputs the source draws from outside are parameters of the model:

- the PBKDF2/HMAC primitives: a `Hasher` of uninterpreted functions, plus
  a flag for whether the cryptography library is present;
- the random salt bytes and the generated run salt;
- the patient age that `compute_age_from_ds` derives from the dataset;
- the whole-second difference `now - dt`;
- the path resolution of output file names.

## Model

| member | source | states |
|---|---|---|
| Anonymization.SaltBytes | lib/dicom-tool.py:396-400 | the salt's bytes are the given salt, or the random bytes when no salt is given |
| Anonymization.Pseudonym | lib/dicom-tool.py:401-411 | every pseudonym starts with `anon_`; when the library is present and the derivation succeeds, the rest is the PBKDF2 text; otherwise the rest is a prefix of the HMAC hex digest, keyed by the salt, or by `default_salt` when the salt is empty, of at most 16 characters and of exactly 16 (a 21-character pseudonym) when the digest has at least 16 |
| Anonymization.PseudonymizeValue | lib/dicom-tool.py:392-411 | the result is None exactly when the value is None; otherwise it starts with `anon_` |
| Anonymization.PseudonymizeDeterministic | lib/dicom-tool.py:395-411 | under one salt, two non-None values with the same `str()` get the same pseudonym, and the random bytes play no part |
| Anonymization.Written | lib/dicom-tool.py:441 | the value written back is None exactly when the pseudonym is None, and otherwise the text of the pseudonym |
| Anonymization.Norm | lib/dicom-tool.py:432 | the normal form (lower case, spaces as underscores) keeps the length |
| Anonymization.Candidates | lib/dicom-tool.py:423 | three spellings are tried, the tag itself first, each as long as the tag |
| Anonymization.FirstPresent | lib/dicom-tool.py:425-428 | a found spelling is both one of the candidates and a key |
| Anonymization.FirstPresentIsFirst | lib/dicom-tool.py:425-428 | the spelling found is the first candidate, in the order tried, that is a key; none is found only when no candidate is a key |
| Anonymization.FirstNormMatch | lib/dicom-tool.py:429-434 | a found key is a key whose normal form equals the tag's |
| Anonymization.FirstNormMatchIsFirst | lib/dicom-tool.py:429-434 | the key found is the first in insertion order with the tag's normal form; none is found only when no key has it |
| Anonymization.Resolve | lib/dicom-tool.py:423-436 | a resolved key is a key of the record and is not the empty string |
| Anonymization.NormOfCandidates | lib/dicom-tool.py:423 | all three spellings tried first have the tag's normal form |
| Anonymization.ResolveMatches | lib/dicom-tool.py:423-436 | a tag resolves iff some non-empty key has its normal form; it then resolves to such a key; a tag that is itself a key resolves to itself |
| Anonymization.FirstNormMatchFinds | lib/dicom-tool.py:429-434 | the case-insensitive scan finds a match whenever some non-empty key matches |
| Anonymization.Record.constructor | lib/dicom-tool.py:414 | the record holds the given keys, in order, and values |
| Anonymization.AnonymizeOne | lib/dicom-tool.py:421-443 | one tag's pass never adds or removes a key |
| Anonymization.AnonymizeTags | lib/dicom-tool.py:421-443 | the pass over all tags never adds or removes a key |
| Anonymization.UsedSalt | lib/dicom-tool.py:416-419 | in pseudonymize mode a salt is always returned; a given salt is returned unchanged; in remove mode the input salt is returned |
| Anonymization.FindKey | lib/dicom-tool.py:423-436 | the two scans find exactly the key `Resolve` names |
| Anonymization.AnonymizeTag | lib/dicom-tool.py:422-443 | the loop body rewrites the record and the map as one step of the fold |
| Anonymization.ApplyAnonymizationToSanitized | lib/dicom-tool.py:414-444 | the rewritten record and the map are those of the fold over all tags under the returned salt; the record keeps its keys and their order |
| Anonymization.ResolvedCountPositive | lib/dicom-tool.py:421-436 | some tag resolves to a key iff the number of tags resolving to it is positive |
| Anonymization.RemoveRedactsResolved | lib/dicom-tool.py:443 | remove mode: a key reads `REDACTED` iff some tag resolves to it, every other key keeps its value, and the map is unchanged |
| Anonymization.RemoveIdempotent | lib/dicom-tool.py:443 | redacting an already redacted record changes nothing |
| Anonymization.PseudonymizeCounts | lib/dicom-tool.py:437-441 | pseudonymize mode: each key is pseudonymized once per tag resolving to it, starting from its original value |
| Anonymization.MappingStaysConsistent | lib/dicom-tool.py:438-440 | every map entry stays `text -> pseudonym(text)`, or `"None" -> None`; no entry is lost |
| Anonymization.PseudonymRecorded | lib/dicom-tool.py:437-441 | a key resolved by exactly one tag gets the pseudonym of its original value, and `mapping[str(original)]` is that written value (text other than "None") |
| Anonymization.DistinctNormsResolveOnce | lib/dicom-tool.py:421-436 | tags with pairwise different normal forms resolve each key at most once |
| Anonymization.DefaultTagsDistinct | lib/dicom-tool.py:108-113 | the 17 built-in tags have pairwise different normal forms |
| Anonymization.NormDiffers | lib/dicom-tool.py:432 | texts of different lengths, or with different lower-case letters at one position, have different normal forms |
| Anonymization.PseudonymizedOnce | lib/dicom-tool.py:437-441 | with such tags, a resolved non-None value becomes exactly the pseudonym of its text |
| Anonymization.CorrelatedAcrossRecords | lib/dicom-tool.py:437-441 | with one salt, two records whose values at a resolved key have the same text get the same pseudonym there |
| Anonymization.SelectAnonTags | lib/dicom-tool.py:720 | no tag list, or an empty one, selects exactly the built-in tags; every selected tag is non-empty |
| Anonymization.SelectSuppliedTags | lib/dicom-tool.py:720 | a comma-joined list of stripped, non-empty, comma-free tags selects exactly those tags, with no defaults added |
| StudyFlags.PresentKeywords | lib/dicom-tool.py:310-312 | a keyword is kept iff it is one of those checked and its value is truthy |
| StudyFlags.PrivateTags | lib/dicom-tool.py:313 | a tag is kept iff it is present and its group is odd |
| StudyFlags.CollectPresent | lib/dicom-tool.py:310-312 | the loop collects exactly the checked keywords with truthy values, in order |
| StudyFlags.CollectPrivate | lib/dicom-tool.py:313 | the loop collects exactly the private tags, in order |
| StudyFlags.PrivateLine | lib/dicom-tool.py:315 | the warning that reports n private tags |
| StudyFlags.PrivateLineCount | lib/dicom-tool.py:315 | the warning starts with the label `Private tags: `, and the count reads back from the text after it |
| StudyFlags.PhiWarnings | lib/dicom-tool.py:308-319 | the warnings are at most the eight identifying keywords, one count line and the three request keywords |
| StudyFlags.CheckPhi | lib/dicom-tool.py:308-319 | the warnings are the identifying keywords present, then `Private tags: n` when n > 0, then the request keywords present |
| StudyFlags.PrivateLineNotKeyword | lib/dicom-tool.py:314-315 | the private-tag warning never coincides with a checked keyword |
| StudyFlags.PhiReportsKeyword | lib/dicom-tool.py:310-318 | a checked keyword is reported iff its value is truthy |
| StudyFlags.PhiReportsPrivate | lib/dicom-tool.py:313-315 | the private-tag count is reported iff some tag is private |
| StudyFlags.PhiReportsOnly | lib/dicom-tool.py:308-319 | nothing but checked keywords and the private-tag count is ever reported |
| StudyFlags.UpperField | lib/dicom-tool.py:352-353 | a present element reads as its `str()` text with each character upper-cased, position by position, so no lower-case ASCII letter is left; an absent element reads as empty |
| StudyFlags.HeadRule | lib/dicom-tool.py:354 | the head rule: a CT or MR study whose description holds one of the head keywords |
| StudyFlags.AngioRule | lib/dicom-tool.py:356 | the angio rule: the description holds `ANGIO`, `CTA` or `CT ANGIO` |
| StudyFlags.FastRule | lib/dicom-tool.py:358 | the FAST rule: an ultrasound (`US`) study whose description holds `FAST` |
| StudyFlags.ElderlyRule | lib/dicom-tool.py:360-365 | the elderly rule: an age of at least 65 years on a CT or MR study whose description holds `BRAIN` |
| StudyFlags.UrgencyReasons | lib/dicom-tool.py:351-365 | one reason per rule that fires, so at most four |
| StudyFlags.AgeYears | lib/dicom-tool.py:362-363 | an age is read only from a string that ends in 'Y' |
| StudyFlags.AnyContained | lib/dicom-tool.py:354 | the keyword scan succeeds iff some keyword occurs in the description |
| StudyFlags.ElderlyCheck | lib/dicom-tool.py:360-367 | the age test fires iff the age is a string ending in 'Y' that `int()` reads, after the Y is stripped, as at least 65, on a CT or MR study whose description names BRAIN |
| StudyFlags.IsUrgent | lib/dicom-tool.py:350-368 | the reasons are those of the head, angio, FAST and elderly rules that fire, in that order; urgent iff there is a reason |
| StudyFlags.ReasonsMatchRules | lib/dicom-tool.py:354-365 | each reason is present iff its rule fires |
| StudyFlags.UrgentIffSomeRule | lib/dicom-tool.py:368 | a study is urgent iff at least one of the four rules fires |
| StudyFlags.ElderlyImpliesHead | lib/dicom-tool.py:354-364 | the elderly rule never fires without the head rule |
| StudyFlags.CtAngioRedundant | lib/dicom-tool.py:356 | the `CT ANGIO` test adds nothing to the `ANGIO` and `CTA` tests |
| StudyFlags.AgeYearsOfRendered | lib/dicom-tool.py:362-363 | the age `"<n>Y"` reads as n years |
| StudyFlags.AgeYearsOfDigits | lib/dicom-tool.py:362-363 | a DICOM AS value, digits (leading zeros included) followed by `Y`, reads as the decimal value of those digits |
| StudyFlags.AgeYearsOfPadded | lib/dicom-tool.py:362-364 | the AS value `"065Y"` reads as 65, the age at which the elderly rule starts |
| OutputSpec.Classify | lib/dicom-tool.py:631-652 | an accepted part always names a supported type |
| OutputSpec.ItemParts | lib/dicom-tool.py:629 | every part of an item is non-empty, stripped, and holds neither ',' nor ';' |
| OutputSpec.SemicolonIsComma | lib/dicom-tool.py:629 | ';' and ',' separate items alike |
| OutputSpec.PartsEntries | lib/dicom-tool.py:630-652 | every accepted request of an item names a supported type |
| OutputSpec.Accepted | lib/dicom-tool.py:631-652 | the request a part makes, if any, names a supported type |
| OutputSpec.Entries | lib/dicom-tool.py:626-652 | every accepted request of the items names a supported type |
| OutputSpec.EntriesStep | lib/dicom-tool.py:626-630 | each item adds the accepted requests of its parts, after those of the earlier items; an empty item adds nothing |
| OutputSpec.File | lib/dicom-tool.py:638-650 | filing a request adds its type as a key if new, appends its path to that type's list, and leaves the other types alone |
| OutputSpec.Group | lib/dicom-tool.py:638-650 | every type in the grouped map has at least one path |
| OutputSpec.AddParts | lib/dicom-tool.py:630-651 | the inner loop files each accepted part of an item by setdefault-and-append |
| OutputSpec.ParseOutputItems | lib/dicom-tool.py:623-653 | the map built is the grouping of all accepted requests, in input order |
| OutputSpec.GroupCollectsPaths | lib/dicom-tool.py:638-650 | a type is a key iff some request names it, and its list is exactly those requests' paths in input order |
| OutputSpec.OutputTypesSupported | lib/dicom-tool.py:623-653 | every key of the result is a supported type |
| OutputSpec.PathsOfKinds | lib/dicom-tool.py:638-650 | a type with requested paths was named by some entry |
| OutputSpec.SupportedNamesPlain | lib/dicom-tool.py:115 | the supported type names are lower case, unpadded and hold no '=' or '.' |
| OutputSpec.ClassifyExplicit | lib/dicom-tool.py:631-639 | `type=file` requests the resolved `file` under that type |
| OutputSpec.ClassifyBare | lib/dicom-tool.py:640-642 | a bare type name requests that type with an empty path |
| OutputSpec.ClassifyByExtension | lib/dicom-tool.py:643-651 | a file name without '=' is typed by its last extension through the extension table |
| OutputSpec.ClassifyRejects | lib/dicom-tool.py:631-652 | a part yields nothing when its type before '=' (stripped, lower-cased) is unsupported, when it is bare, not a type and has no '.', or when its last extension (lower-cased) is not in the extension table |
| OutputSpec.ClassifyPaddedType | lib/dicom-tool.py:632-639 | the type before '=' is stripped and lower-cased: `" CSV =x"` requests the resolved `x` as `csv` |
| DicomTime.DetailedDeltaComponents | lib/dicom-tool.py:267-274 | hours < 24, minutes < 60, seconds < 60, days < 30, months ≤ 12, months·30 + days < 365, and the units add back to the absolute number of seconds exactly |
| DicomTime.NormalizedUnique | lib/dicom-tool.py:267-274 | only one breakdown within those bounds has a given total, so the breakdown is determined by the elapsed time |
| DicomTime.Quantity | lib/dicom-tool.py:279-283 | a part is the count, a space and the unit, plus one more character (the plural 's') unless the count is 1 |
| DicomTime.Part | lib/dicom-tool.py:279-283 | a zero unit gives no part, any other unit exactly its quantity |
| DicomTime.Parts | lib/dicom-tool.py:279-283 | there is one part per non-zero unit among years, months, days, hours and minutes |
| DicomTime.PartsOfUnits | lib/dicom-tool.py:279-283 | every non-zero unit contributes its quantity, every part is the quantity of a non-zero unit, and the first part is that of the largest non-zero unit |
| DicomTime.Shown | lib/dicom-tool.py:284-286 | no parts show as `just now`; otherwise the text starts with the first part |
| DicomTime.HumanReadableDelta | lib/dicom-tool.py:277-286 | the text is the rendering of the breakdown of the elapsed time |
| DicomTime.RenderedOfTotal | lib/dicom-tool.py:277-278 | every breakdown within bounds of the same total renders alike |
| DicomTime.JustNowIff | lib/dicom-tool.py:279-285 | the text is `just now` iff years, months, days, hours and minutes are all zero |
| DicomTime.FiveUnitsShowFour | lib/dicom-tool.py:286 | with every unit set, only the first four parts are joined |
| DicomTime.ExampleParts | lib/dicom-tool.py:279-283 | two years, one day and five minutes give the parts `2 years`, `1 day`, `5 minutes`: zero units are skipped, a count of 1 is singular |
| DicomTime.RenderingExample | lib/dicom-tool.py:279-286 | those parts are joined by ", " |
| DicomTime.PluralIffNotOne | lib/dicom-tool.py:279-283 | a part ends in 's' iff its count is not 1 |
| DicomTime.SecondsIgnored | lib/dicom-tool.py:279-286 | the seconds never change the text |
| DicomTime.NormalizeTime | lib/dicom-tool.py:254 | the normalised TM value has exactly 6 characters |
| DicomTime.StrptimeHMS | lib/dicom-tool.py:255-257 | a parsed time has hour < 24, minute < 60 and second < 60, and its `HHMMSS` rendering is exactly the six characters parsed |
| DicomTime.ParseDicomTime | lib/dicom-tool.py:250-257 | None or an empty value gives None; a parsed time is a valid time of day whose `HHMMSS` rendering is the normalised text (before the first '.', padded with '0', cut to six) |
| DicomTime.ParseFormatted | lib/dicom-tool.py:251-258 | parsing the `HHMMSS` text of a valid time gives that time |
| DicomTime.FractionIgnored | lib/dicom-tool.py:254 | a fractional part after '.' is ignored when something precedes it |
| DicomTime.ShortFormHHMM | lib/dicom-tool.py:254-256 | `HHMM` reads as that hour and minute with zero seconds |
| DicomTime.DotIsMidnight | lib/dicom-tool.py:252-256 | a lone "." is not empty, pads to `000000` and reads as midnight |
| Fhir.StudyUid | lib/dicom-tool.py:985 | the UID is truthy iff either UID field is, and is `study_instance_uid` whenever that one is truthy |
| Fhir.Draft | lib/dicom-tool.py:988-996 | the literal has exactly the seven keys `resourceType`, `identifier`, `status`, `subject`, `numberOfSeries`, `modality`, `started` |
| Fhir.Or | lib/dicom-tool.py:985 | `a or b` is truthy iff either is |
| Fhir.DropNone | lib/dicom-tool.py:998 | exactly the non-None entries are kept, with their values |
| Fhir.DicomToFhirImagingStudy | lib/dicom-tool.py:983-998 | no entry of the record is None |
| Fhir.EntriesPresent | lib/dicom-tool.py:988-996 | only the literal's keys appear; resourceType, status, numberOfSeries and identifier always do, with their fixed values |
| Fhir.IdentifierFromUid | lib/dicom-tool.py:985-990 | the identifier list is non-empty iff either UID field is truthy, and then holds the first truthy UID under `urn:dicom:uid` |
| Fhir.SubjectIffPatient | lib/dicom-tool.py:986-992 | `subject` is present iff `patient_id` is truthy, as the reference `Patient/<id>` |
| Fhir.OptionalEntries | lib/dicom-tool.py:987-995 | modality and started are present iff their sanitized values are not None, and then are copied |
| PyText.JoinSplit | lib/dicom-tool.py:629 | joining the pieces of a split with the separator gives the text back, so splitting loses nothing |
| PyText.StrippedFieldsOfJoin | lib/dicom-tool.py:720 | splitting a comma-join of stripped, non-empty, comma-free fields and dropping blanks gives the fields back |
| PyText.ParseIntOfIntToStr | lib/dicom-tool.py:363 | `int(str(i)) == i` |
| PyText.ParseIntOfDigits | lib/dicom-tool.py:363 | `int(d)` of plain ASCII digits, leading zeros included, is their decimal value |
| PyText.ContainsInner | lib/dicom-tool.py:356 | every piece of a contained string is contained |

## Left out

- pydicom itself: the dataset is two inputs, its element values by keyword and the tags it holds; `is_private` is "odd group".
- `compute_age_from_ds`: the age is an input of `IsUrgent`, so the link from the dataset to the age is not modelled: the source returns the PatientAge text when it is set, an age computed from the birth date and the clock otherwise, and `N/A` when neither is usable. The model accepts any value as the age, while the source always passes a string.
- The clock, and the `relativedelta` branch of `detailed_delta_components`: the whole-second difference `now - dt` is an input.
- DicomTime.DetailedDeltaComponents: the float `total_seconds()` and its truncation by `int()` are not modelled; the input is already whole seconds.
- `format_dicom_datetime` is not part of this model.
- The PBKDF2, HMAC-SHA256 and base64 internals, and `os.urandom`: a `Hasher` of uninterpreted functions, and the random bytes and generated salt as parameters.
- Bytes and encodings: the salt bytes are the salt's text, since UTF-8 encoding is injective; `.encode('utf-8')` is not modelled.
- Anonymization.PseudonymizeValue: randomness is a parameter, so the model cannot express that two calls without a salt draw different bytes.
- String case mapping covers ASCII letters only; `lower`, `upper` and `title` on other letters are not modelled.
- `int()` and `strptime` accept ASCII digits only here; Python also accepts other Unicode decimal digits.
- Anonymization.PseudonymRecorded: for a value whose text is "None", the map entry can be overwritten by a None value's entry with the same text, so the model states the entry only for other texts.
- OutputSpec.Classify: path resolution (`Path(fn)` kept when absolute or with a directory part, else under `Path.cwd()`, then `str`) is the parameter `resolve`, so the file system and working directory are not modelled.
- The warnings `parse_output_items` and `apply_anonymization_to_sanitized` log are not modelled, and neither is the unused `outdir` argument.
- Fhir.DicomToFhirImagingStudy: the record is a map, so the key order of the emitted JSON is not modelled.
- The sanitized values are `Value`s: None, bool, int, str, or anything else kept as its `str()` text and truth value. Floats, lists and nested dicts are not modelled further.
- File writing, the threaded batch loop, pixel and thumbnail code, argparse, logging and the REPL are not part of this model.
