/**
 * Anonymization of the flat metadata record: tag resolution, salted
 * pseudonyms, redaction, and the choice of which tags to anonymize.
 *
 * The key-derivation and HMAC primitives are left uninterpreted (a
 * `Hasher`); the random salt is a parameter.
 */
module Anonymization {
  import opened Wrappers
  import PyText
  import opened Values

  /** The identifying fields anonymized when no tag list is given. */
  const DEFAULT_ANON_TAGS: seq<string> := [
    "patient_name", "patient_id", "patient_birth_date", "patient_birth_time", "patient_age", "patient_address",
    "other_patient_ids", "other_patient_names", "referring_physician_name", "performing_physician_name",
    "operators_name", "institution_name", "station_name", "accession_number", "study_id", "series_description",
    "study_comments"
  ]

  const REDACTED: string := "REDACTED"

  /** Any mode other than pseudonymize redacts. */
  datatype Mode = Pseudonymize | Remove

  /**
   * The digest primitives: PBKDF2-HMAC-SHA256 of a value under a salt,
   * base64url without padding (None when the library is missing or the
   * derivation raises), and the hex HMAC-SHA256 of a message under a key.
   */
  datatype Hasher = Hasher(
    cryptoAvailable: bool,
    pbkdf2: (string, string) -> Option<string>,
    hmacSha256Hex: (string, string) -> string)

  // ------------------------------------------------------------ pseudonyms

  /** The salt bytes: the given salt, or 16 random bytes when there is none. */
  function SaltBytes(salt: Option<string>, randomBytes: string): (r: string)
    ensures salt.Some? ==> r == salt.value
    ensures salt.None? ==> r == randomBytes
  {
    salt.GetOr(randomBytes)
  }

  /** The pseudonym of a value's text: PBKDF2 when it works, else truncated HMAC. */
  function Pseudonym(valueText: string, saltBytes: string, h: Hasher): (r: string)
    ensures "anon_" <= r
    ensures h.cryptoAvailable && h.pbkdf2(valueText, saltBytes).Some? ==>
              r[5..] == h.pbkdf2(valueText, saltBytes).value
    ensures !(h.cryptoAvailable && h.pbkdf2(valueText, saltBytes).Some?) ==>
              |r| <= 21 && r[5..] <= h.hmacSha256Hex(if saltBytes != "" then saltBytes else "default_salt", valueText)
    ensures !(h.cryptoAvailable && h.pbkdf2(valueText, saltBytes).Some?) &&
            |h.hmacSha256Hex(if saltBytes != "" then saltBytes else "default_salt", valueText)| >= 16 ==>
              |r| == 21
  {
    var derived := if h.cryptoAvailable then h.pbkdf2(valueText, saltBytes) else None;
    if derived.Some? then "anon_" + derived.value
    else
      var key := if saltBytes != "" then saltBytes else "default_salt";
      var hex := h.hmacSha256Hex(key, valueText);
      "anon_" + hex[..if |hex| < 16 then |hex| else 16]
  }

  /**
   * `pseudonymize_value`: None for None; otherwise the pseudonym of the
   * value's `str()`. `randomBytes` stands for `os.urandom(16)`, drawn only
   * when no salt is given.
   */
  function PseudonymizeValue(value: Value, salt: Option<string>, randomBytes: string, h: Hasher): (r: Option<string>)
    ensures r.None? <==> value.Null?
    ensures r.Some? ==> "anon_" <= r.value
  {
    if value.Null? then None else Some(Pseudonym(Str(value), SaltBytes(salt, randomBytes), h))
  }

  /**
   * Determinism: under the same salt, values with the same text get the
   * same pseudonym, whatever their type, so records can be correlated.
   */
  lemma PseudonymizeDeterministic(v1: Value, v2: Value, salt: string, r1: string, r2: string, h: Hasher)
    requires Str(v1) == Str(v2) && !v1.Null? && !v2.Null?
    ensures PseudonymizeValue(v1, Some(salt), r1, h) == PseudonymizeValue(v2, Some(salt), r2, h)
    ensures PseudonymizeValue(v1, Some(salt), r1, h) == Some(Pseudonym(Str(v1), salt, h))
  {
  }

  /** What `pseudonymize_value` writes into the record. */
  function Written(p: Option<string>): (r: Value)
    ensures r.Null? <==> p.None?
    ensures p.Some? ==> r.Text? && Str(r) == p.value
  {
    if p.Some? then Text(p.value) else Null
  }

  // -------------------------------------------------------- tag resolution

  /** Case-insensitive snake_case form used for the fallback match. */
  function Norm(s: string): (r: string)
    ensures |r| == |s|
  {
    PyText.Replace(PyText.Lower(s), ' ', '_')
  }

  /** The exact spellings tried first: as given, Title Case with spaces, with spaces. */
  function Candidates(tag: string): (r: seq<string>)
    ensures |r| == 3 && r[0] == tag
    ensures forall i :: 0 <= i < 3 ==> |r[i]| == |tag|
  {
    var spaced := PyText.Replace(tag, '_', ' ');
    [tag, PyText.Title(spaced), spaced]
  }

  /** The first candidate that is a key. */
  function FirstPresent(cands: seq<string>, keys: seq<string>): (r: Option<string>)
    ensures r.Some? ==> r.value in cands && r.value in keys
  {
    if |cands| == 0 then None
    else if cands[0] in keys then Some(cands[0])
    else FirstPresent(cands[1..], keys)
  }

  /** The first key, in insertion order, whose normal form is that of `tag`. */
  function FirstNormMatch(keys: seq<string>, tag: string): (r: Option<string>)
    ensures r.Some? ==> r.value in keys && Norm(r.value) == Norm(tag)
  {
    if |keys| == 0 then None
    else if Norm(keys[0]) == Norm(tag) then Some(keys[0])
    else FirstNormMatch(keys[1..], tag)
  }

  /**
   * The spelling found is the first candidate that is a key, and none is
   * found only when no candidate is a key.
   */
  lemma {:induction false} FirstPresentIsFirst(cands: seq<string>, keys: seq<string>)
    ensures FirstPresent(cands, keys).Some? ==>
              exists i :: 0 <= i < |cands| && cands[i] == FirstPresent(cands, keys).value
                          && forall j :: 0 <= j < i ==> cands[j] !in keys
    ensures FirstPresent(cands, keys).None? ==> forall c :: c in cands ==> c !in keys
  {
    if |cands| > 0 && cands[0] !in keys {
      var tail := cands[1..];
      FirstPresentIsFirst(tail, keys);
      if FirstPresent(tail, keys).Some? {
        var i :| 0 <= i < |tail| && tail[i] == FirstPresent(tail, keys).value
                 && forall j :: 0 <= j < i ==> tail[j] !in keys;
        assert cands[i + 1] == tail[i];
        assert forall j :: 0 < j < i + 1 ==> cands[j] == tail[j - 1];
      } else {
        assert forall c :: c in cands ==> c == cands[0] || c in tail;
      }
    }
  }

  /**
   * The key found is the first key, in insertion order, with the tag's
   * normal form, and none is found only when no key has it.
   */
  lemma {:induction false} FirstNormMatchIsFirst(keys: seq<string>, tag: string)
    ensures FirstNormMatch(keys, tag).Some? ==>
              exists i :: 0 <= i < |keys| && keys[i] == FirstNormMatch(keys, tag).value
                          && forall j :: 0 <= j < i ==> Norm(keys[j]) != Norm(tag)
    ensures FirstNormMatch(keys, tag).None? ==> forall j :: 0 <= j < |keys| ==> Norm(keys[j]) != Norm(tag)
  {
    if |keys| > 0 && Norm(keys[0]) != Norm(tag) {
      var tail := keys[1..];
      FirstNormMatchIsFirst(tail, tag);
      assert forall j :: 0 < j < |keys| ==> keys[j] == tail[j - 1];
      if FirstNormMatch(tail, tag).Some? {
        var i :| 0 <= i < |tail| && tail[i] == FirstNormMatch(tail, tag).value
                 && forall j :: 0 <= j < i ==> Norm(tail[j]) != Norm(tag);
        assert keys[i + 1] == tail[i];
      }
    }
  }

  /**
   * The key a tag resolves to. A key found as "" is falsy in the source
   * and counts as not found.
   */
  function Resolve(keys: seq<string>, tag: string): (r: Option<string>)
    ensures r.Some? ==> r.value in keys && r.value != ""
  {
    var direct := FirstPresent(Candidates(tag), keys);
    if direct.Some? && direct.value != "" then direct
    else
      var m := FirstNormMatch(keys, tag);
      if m.Some? && m.value != "" then m else None
  }

  lemma NormOfCandidates(tag: string)
    ensures forall c :: c in Candidates(tag) ==> Norm(c) == Norm(tag)
  {
    var spaced := PyText.Replace(tag, '_', ' ');
    assert Norm(spaced) == Norm(tag);
    var t := PyText.Title(spaced);
    forall i | 0 <= i < |t|
      ensures PyText.LowerChar(t[i]) == PyText.LowerChar(spaced[i])
    {
      if PyText.IsCased(spaced[i]) {
        var c := spaced[i];
        assert t[i] == PyText.LowerChar(c) || t[i] == PyText.UpperChar(c);
      }
    }
    assert Norm(t) == Norm(spaced);
  }

  /**
   * A tag resolves exactly when some non-empty key has its normal form
   * (lower case, spaces as underscores), and it resolves to such a key;
   * an exact key always wins.
   */
  lemma ResolveMatches(keys: seq<string>, tag: string)
    ensures Resolve(keys, tag).Some? ==> Norm(Resolve(keys, tag).value) == Norm(tag)
    ensures Resolve(keys, tag).Some? <==> exists j :: 0 <= j < |keys| && keys[j] != "" && Norm(keys[j]) == Norm(tag)
    ensures tag in keys && tag != "" ==> Resolve(keys, tag) == Some(tag)
  {
    NormOfCandidates(tag);
    if j :| 0 <= j < |keys| && keys[j] != "" && Norm(keys[j]) == Norm(tag) {
      FirstNormMatchFinds(keys, tag, j);
    }
  }

  lemma {:induction false} FirstNormMatchFinds(keys: seq<string>, tag: string, j: int)
    requires 0 <= j < |keys| && keys[j] != "" && Norm(keys[j]) == Norm(tag)
    ensures FirstNormMatch(keys, tag).Some? && FirstNormMatch(keys, tag).value != ""
  {
    if Norm(keys[0]) != Norm(tag) {
      FirstNormMatchFinds(keys[1..], tag, j - 1);
    } else {
      assert |keys[0]| == |Norm(tag)| == |keys[j]|;
    }
  }

  // ---------------------------------------------------- the record, in place

  /** The flat metadata dict: its keys in insertion order and its values. */
  class Record {
    var keys: seq<string>
    var values: map<string, Value>

    ghost predicate Valid()
      reads this
    {
      && (forall k :: k in keys ==> k in values)
      && (forall k :: k in values ==> k in keys)
      && (forall i, j :: 0 <= i < j < |keys| ==> keys[i] != keys[j])
    }

    constructor (keys: seq<string>, values: map<string, Value>)
      requires forall k :: k in keys <==> k in values
      requires forall i, j :: 0 <= i < j < |keys| ==> keys[i] != keys[j]
      ensures Valid() && this.keys == keys && this.values == values
    {
      this.keys := keys;
      this.values := values;
    }
  }

  /** What the loop has produced so far: the values and the pseudonym map. */
  datatype AnonState = AnonState(values: map<string, Value>, mapping: map<string, Option<string>>)

  /** One pass of the loop body for one tag. */
  function AnonymizeOne(keys: seq<string>, st: AnonState, tag: string, mode: Mode, salt: string, h: Hasher): (r: AnonState)
    ensures (forall k :: k in keys ==> k in st.values) ==> r.values.Keys == st.values.Keys
  {
    match Resolve(keys, tag)
    case None => st
    case Some(k) =>
      var orig := Get(st.values, k);
      if mode == Pseudonymize then
        var p := PseudonymizeValue(orig, Some(salt), "", h);
        AnonState(st.values[k := Written(p)], st.mapping[Str(orig) := p])
      else
        AnonState(st.values[k := Text(REDACTED)], st.mapping)
  }

  /** The loop over `tags`, in order. */
  function AnonymizeTags(keys: seq<string>, st: AnonState, tags: seq<string>, mode: Mode, salt: string, h: Hasher): (r: AnonState)
    ensures (forall k :: k in keys ==> k in st.values) ==> r.values.Keys == st.values.Keys
    decreases |tags|
  {
    if |tags| == 0 then st
    else AnonymizeOne(keys, AnonymizeTags(keys, st, tags[..|tags| - 1], mode, salt, h), tags[|tags| - 1], mode, salt, h)
  }

  /** The salt returned: a generated one in pseudonymize mode without a salt, else the given one. */
  function UsedSalt(mode: Mode, salt: Option<string>, generatedSalt: string): (r: Option<string>)
    ensures mode == Pseudonymize ==> r.Some?
    ensures salt.Some? ==> r == salt
    ensures mode == Remove ==> r == salt
  {
    if mode == Pseudonymize && salt.None? then Some(generatedSalt) else salt
  }

  /** Finds the key a tag names, trying exact spellings first, then a case-insensitive scan. */
  method FindKey(sanitized: Record, tag: string) returns (found: Option<string>)
    requires sanitized.Valid()
    ensures found == Resolve(sanitized.keys, tag)
  {
    var possible := Candidates(tag);
    found := None;
    var i := 0;
    while i < |possible|
      invariant 0 <= i <= |possible|
      invariant FirstPresent(possible, sanitized.keys) == FirstPresent(possible[i..], sanitized.keys)
    {
      if possible[i] in sanitized.values {
        found := Some(possible[i]);
        break;
      }
      i := i + 1;
    }
    assert found == FirstPresent(possible, sanitized.keys);
    if found.None? || found.value == "" {
      var ks := sanitized.keys;
      var j := 0;
      while j < |ks|
        invariant 0 <= j <= |ks|
        invariant FirstNormMatch(ks, tag) == FirstNormMatch(ks[j..], tag)
      {
        if Norm(ks[j]) == Norm(tag) {
          found := Some(ks[j]);
          break;
        }
        j := j + 1;
      }
      if j == |ks| {
        assert FirstNormMatch(ks, tag).None?;
      }
    }
    if found.Some? && found.value == "" {
      found := None;
    }
  }

  /** The loop body for one tag: rewrites the key it resolves to, if any. */
  method AnonymizeTag(sanitized: Record, tag: string, mode: Mode, salt: Option<string>, h: Hasher,
                      mapping: map<string, Option<string>>)
    returns (mapping': map<string, Option<string>>)
    requires sanitized.Valid()
    requires mode == Pseudonymize ==> salt.Some?
    modifies sanitized
    ensures sanitized.Valid() && sanitized.keys == old(sanitized.keys)
    ensures AnonState(sanitized.values, mapping')
         == AnonymizeOne(sanitized.keys, AnonState(old(sanitized.values), mapping), tag, mode, salt.GetOr(""), h)
  {
    mapping' := mapping;
    var found := FindKey(sanitized, tag);
    if found.Some? {
      var orig := Get(sanitized.values, found.value);
      if mode == Pseudonymize {
        // the salt is set in this mode, so no random bytes are drawn
        var pseud := PseudonymizeValue(orig, salt, "", h);
        mapping' := mapping'[Str(orig) := pseud];
        sanitized.values := sanitized.values[found.value := Written(pseud)];
      } else {
        sanitized.values := sanitized.values[found.value := Text(REDACTED)];
      }
    }
  }

  /**
   * `apply_anonymization_to_sanitized`: rewrites the record in place and
   * returns the pseudonym map and the salt used. `generatedSalt` stands for
   * the base64 text of 12 random bytes.
   */
  method ApplyAnonymizationToSanitized(sanitized: Record, tags: seq<string>, mode: Mode, salt: Option<string>,
                                       generatedSalt: string, h: Hasher)
    returns (mapping: map<string, Option<string>>, usedSalt: Option<string>)
    requires sanitized.Valid()
    modifies sanitized
    ensures sanitized.Valid() && sanitized.keys == old(sanitized.keys)
    ensures usedSalt == UsedSalt(mode, salt, generatedSalt)
    ensures AnonState(sanitized.values, mapping)
         == AnonymizeTags(old(sanitized.keys), AnonState(old(sanitized.values), map[]), tags, mode, usedSalt.GetOr(""), h)
  {
    ghost var keys0, values0 := sanitized.keys, sanitized.values;
    mapping := map[];
    usedSalt := salt;
    if mode == Pseudonymize && salt.None? {
      usedSalt := Some(generatedSalt);
    }
    var i := 0;
    while i < |tags|
      invariant 0 <= i <= |tags|
      invariant sanitized.Valid() && sanitized.keys == keys0
      invariant AnonState(sanitized.values, mapping)
             == AnonymizeTags(keys0, AnonState(values0, map[]), tags[..i], mode, usedSalt.GetOr(""), h)
    {
      assert tags[..i + 1][..i] == tags[..i];
      mapping := AnonymizeTag(sanitized, tags[i], mode, usedSalt, h, mapping);
      i := i + 1;
    }
    assert tags[..|tags|] == tags;
  }

  // ---------------------------------------------------------- properties

  /** The tags that resolve to `k`, counted. */
  function ResolvedCount(keys: seq<string>, tags: seq<string>, k: string): nat
    decreases |tags|
  {
    if |tags| == 0 then 0
    else ResolvedCount(keys, tags[..|tags| - 1], k) + (if Resolve(keys, tags[|tags| - 1]) == Some(k) then 1 else 0)
  }

  predicate Resolved(keys: seq<string>, tags: seq<string>, k: string) {
    exists i :: 0 <= i < |tags| && Resolve(keys, tags[i]) == Some(k)
  }

  lemma {:induction false} ResolvedCountPositive(keys: seq<string>, tags: seq<string>, k: string)
    ensures ResolvedCount(keys, tags, k) > 0 <==> Resolved(keys, tags, k)
    decreases |tags|
  {
    if |tags| > 0 {
      ResolvedCountPositive(keys, tags[..|tags| - 1], k);
      ResolvedSnoc(keys, tags, k);
    }
  }

  /** A key is resolved by `tags` iff by all but the last tag, or by the last. */
  lemma ResolvedSnoc(keys: seq<string>, tags: seq<string>, k: string)
    requires |tags| > 0
    ensures Resolved(keys, tags, k)
        <==> Resolved(keys, tags[..|tags| - 1], k) || Resolve(keys, tags[|tags| - 1]) == Some(k)
  {
    var init := tags[..|tags| - 1];
    if Resolved(keys, init, k) {
      var i :| 0 <= i < |init| && Resolve(keys, init[i]) == Some(k);
      assert tags[i] == init[i];
    }
    if Resolved(keys, tags, k) && Resolve(keys, tags[|tags| - 1]) != Some(k) {
      var i :| 0 <= i < |tags| && Resolve(keys, tags[i]) == Some(k);
      assert init[i] == tags[i];
    }
  }

  /**
   * Remove mode: every key some tag resolves to reads REDACTED, every other
   * key is unchanged, and the pseudonym map gains nothing.
   */
  lemma {:induction false} RemoveRedactsResolved(keys: seq<string>, st: AnonState, tags: seq<string>, salt: string, h: Hasher)
    requires forall k :: k in keys ==> k in st.values
    ensures AnonymizeTags(keys, st, tags, Remove, salt, h).mapping == st.mapping
    ensures forall k :: k in st.values ==>
              AnonymizeTags(keys, st, tags, Remove, salt, h).values[k]
              == if Resolved(keys, tags, k) then Text(REDACTED) else st.values[k]
    decreases |tags|
  {
    if |tags| > 0 {
      var init := tags[..|tags| - 1];
      RemoveRedactsResolved(keys, st, init, salt, h);
      forall k | k in st.values
        ensures AnonymizeTags(keys, st, tags, Remove, salt, h).values[k]
                == if Resolved(keys, tags, k) then Text(REDACTED) else st.values[k]
      {
        ResolvedCountPositive(keys, init, k);
        ResolvedCountPositive(keys, tags, k);
      }
    }
  }

  /** Remove mode is idempotent: redacting a redacted record changes nothing. */
  lemma RemoveIdempotent(keys: seq<string>, st: AnonState, tags: seq<string>, salt: string, h: Hasher)
    requires forall k :: k in keys ==> k in st.values
    ensures var once := AnonymizeTags(keys, st, tags, Remove, salt, h);
            AnonymizeTags(keys, once, tags, Remove, salt, h) == once
  {
    var once := AnonymizeTags(keys, st, tags, Remove, salt, h);
    RemoveRedactsResolved(keys, st, tags, salt, h);
    var twice := AnonymizeTags(keys, once, tags, Remove, salt, h);
    RemoveRedactsResolved(keys, once, tags, salt, h);
    assert twice.values == once.values;
  }

  /** The value after `n` pseudonymizations. */
  function Repseudonymize(n: nat, v: Value, salt: string, h: Hasher): Value {
    if n == 0 then v else Written(PseudonymizeValue(Repseudonymize(n - 1, v, salt, h), Some(salt), "", h))
  }

  /**
   * Pseudonymize mode: each key is pseudonymized once for every tag that
   * resolves to it (so twice when two tags name the same key).
   */
  lemma {:induction false} PseudonymizeCounts(keys: seq<string>, st: AnonState, tags: seq<string>, salt: string, h: Hasher)
    requires forall k :: k in keys ==> k in st.values
    ensures forall k :: k in st.values ==>
              AnonymizeTags(keys, st, tags, Pseudonymize, salt, h).values[k]
              == Repseudonymize(ResolvedCount(keys, tags, k), st.values[k], salt, h)
    decreases |tags|
  {
    if |tags| > 0 {
      var init := tags[..|tags| - 1];
      PseudonymizeCounts(keys, st, init, salt, h);
      var mid := AnonymizeTags(keys, st, init, Pseudonymize, salt, h);
      forall k | k in st.values
        ensures AnonymizeTags(keys, st, tags, Pseudonymize, salt, h).values[k]
                == Repseudonymize(ResolvedCount(keys, tags, k), st.values[k], salt, h)
      {
        PseudonymizeStep(keys, mid, tags[|tags| - 1], salt, h, k);
      }
    }
  }

  /** One tag pseudonymizes the key it resolves to and leaves the others alone. */
  lemma PseudonymizeStep(keys: seq<string>, st: AnonState, tag: string, salt: string, h: Hasher, k: string)
    requires k in st.values
    ensures AnonymizeOne(keys, st, tag, Pseudonymize, salt, h).values[k]
            == if Resolve(keys, tag) == Some(k)
               then Written(PseudonymizeValue(st.values[k], Some(salt), "", h))
               else st.values[k]
  {
  }

  /** Every entry of the map is `text -> pseudonym(text)`, or `"None" -> None` for a None value. */
  ghost predicate MappingConsistent(mapping: map<string, Option<string>>, salt: string, h: Hasher) {
    forall s :: s in mapping ==> mapping[s] == Some(Pseudonym(s, salt, h)) || (s == "None" && mapping[s].None?)
  }

  lemma {:induction false} MappingStaysConsistent(keys: seq<string>, st: AnonState, tags: seq<string>, mode: Mode, salt: string, h: Hasher)
    requires MappingConsistent(st.mapping, salt, h)
    ensures MappingConsistent(AnonymizeTags(keys, st, tags, mode, salt, h).mapping, salt, h)
    ensures st.mapping.Keys <= AnonymizeTags(keys, st, tags, mode, salt, h).mapping.Keys
    decreases |tags|
  {
    if |tags| > 0 {
      MappingStaysConsistent(keys, st, tags[..|tags| - 1], mode, salt, h);
    }
  }

  /**
   * A key that exactly one tag resolves to receives the pseudonym of its
   * original value, and the map records `str(original) -> that pseudonym`
   * (unless the text is "None", which a None value may overwrite).
   */
  lemma {:induction false} PseudonymRecorded(keys: seq<string>, st: AnonState, tags: seq<string>, salt: string, h: Hasher, k: string)
    requires forall k :: k in keys ==> k in st.values
    requires MappingConsistent(st.mapping, salt, h)
    requires k in st.values && ResolvedCount(keys, tags, k) == 1
    ensures var r := AnonymizeTags(keys, st, tags, Pseudonymize, salt, h);
            && r.values[k] == Written(PseudonymizeValue(st.values[k], Some(salt), "", h))
            && Str(st.values[k]) in r.mapping
            && (Str(st.values[k]) != "None" ==> r.mapping[Str(st.values[k])] == Some(r.values[k].s))
    decreases |tags|
  {
    var r := AnonymizeTags(keys, st, tags, Pseudonymize, salt, h);
    PseudonymizeCounts(keys, st, tags, salt, h);
    MappingStaysConsistent(keys, st, tags, Pseudonymize, salt, h);
    var init := tags[..|tags| - 1];
    var mid := AnonymizeTags(keys, st, init, Pseudonymize, salt, h);
    if Resolve(keys, tags[|tags| - 1]) == Some(k) {
      PseudonymizeCounts(keys, st, init, salt, h);
      assert mid.values[k] == st.values[k];
    } else {
      PseudonymRecorded(keys, st, init, salt, h, k);
      MappingStaysConsistent(keys, st, init, Pseudonymize, salt, h);
      MappingStaysConsistent(keys, mid, [tags[|tags| - 1]], Pseudonymize, salt, h);
      assert AnonymizeTags(keys, mid, [tags[|tags| - 1]], Pseudonymize, salt, h) == r;
    }
    if Str(st.values[k]) != "None" {
      assert !st.values[k].Null?;
    }
  }

  /** Tags no two of which share a normal form. */
  predicate DistinctNorms(tags: seq<string>) {
    forall i, j :: 0 <= i < j < |tags| ==> Norm(tags[i]) != Norm(tags[j])
  }

  /** With tags of distinct normal forms, no key is resolved twice. */
  lemma {:induction false} DistinctNormsResolveOnce(keys: seq<string>, tags: seq<string>, k: string)
    requires DistinctNorms(tags)
    ensures ResolvedCount(keys, tags, k) <= 1
    decreases |tags|
  {
    if |tags| > 0 {
      var init := tags[..|tags| - 1];
      assert DistinctNorms(init) by {
        forall i, j | 0 <= i < j < |init| ensures Norm(init[i]) != Norm(init[j]) {
          assert init[i] == tags[i] && init[j] == tags[j];
        }
      }
      DistinctNormsResolveOnce(keys, init, k);
      if Resolve(keys, tags[|tags| - 1]) == Some(k) && ResolvedCount(keys, init, k) == 1 {
        ResolvedCountPositive(keys, init, k);
        var i :| 0 <= i < |init| && Resolve(keys, init[i]) == Some(k);
        ResolveMatches(keys, init[i]);
        ResolveMatches(keys, tags[|tags| - 1]);
        assert false;
      }
    }
  }

  /** The built-in tags have distinct normal forms, so none resolves a key another one does. */
  lemma DefaultTagsDistinct()
    ensures DistinctNorms(DEFAULT_ANON_TAGS)
  {
    var d := DEFAULT_ANON_TAGS;
    forall i, j | 0 <= i < j < |d| ensures Norm(d[i]) != Norm(d[j]) {
      // equal lengths differ at the first letter, except the two birth tags
      var k := if i == 2 && j == 3 then 14 else 0;
      NormDiffers(d[i], d[j], k);
    }
  }

  /** Texts of different lengths, or with different lower-case letters at one position, differ in normal form. */
  lemma NormDiffers(a: string, b: string, k: nat)
    requires |a| != |b| || (k < |a| == |b| && PyText.IsLowerAscii(a[k]) && PyText.IsLowerAscii(b[k]) && a[k] != b[k])
    ensures Norm(a) != Norm(b)
  {
    if |a| == |b| {
      assert Norm(a)[k] != Norm(b)[k];
    }
  }

  /** With tags of distinct normal forms, a resolved key gets the pseudonym of its value's text. */
  lemma PseudonymizedOnce(keys: seq<string>, st: AnonState, tags: seq<string>, salt: string, h: Hasher, k: string)
    requires forall k :: k in keys ==> k in st.values
    requires DistinctNorms(tags)
    requires k in st.values && Resolved(keys, tags, k) && !st.values[k].Null?
    ensures AnonymizeTags(keys, st, tags, Pseudonymize, salt, h).values[k] == Text(Pseudonym(Str(st.values[k]), salt, h))
  {
    var v := st.values[k];
    DistinctNormsResolveOnce(keys, tags, k);
    ResolvedCountPositive(keys, tags, k);
    assert ResolvedCount(keys, tags, k) == 1;
    PseudonymizeCounts(keys, st, tags, salt, h);
    assert AnonymizeTags(keys, st, tags, Pseudonymize, salt, h).values[k] == Repseudonymize(1, v, salt, h);
    assert Repseudonymize(0, v, salt, h) == v;
  }

  /**
   * Correlation: with a given salt and tags of distinct normal forms, two
   * records whose value at a resolved key has the same text get the same
   * pseudonym there.
   */
  lemma CorrelatedAcrossRecords(keys1: seq<string>, st1: AnonState, keys2: seq<string>, st2: AnonState,
                                tags: seq<string>, salt: string, h: Hasher, k: string)
    requires forall k :: k in keys1 ==> k in st1.values
    requires forall k :: k in keys2 ==> k in st2.values
    requires DistinctNorms(tags)
    requires k in st1.values && k in st2.values
    requires Resolved(keys1, tags, k) && Resolved(keys2, tags, k)
    requires !st1.values[k].Null? && !st2.values[k].Null? && Str(st1.values[k]) == Str(st2.values[k])
    ensures AnonymizeTags(keys1, st1, tags, Pseudonymize, salt, h).values[k]
         == AnonymizeTags(keys2, st2, tags, Pseudonymize, salt, h).values[k]
         == Text(Pseudonym(Str(st1.values[k]), salt, h))
  {
    PseudonymizedOnce(keys1, st1, tags, salt, h, k);
    PseudonymizedOnce(keys2, st2, tags, salt, h, k);
  }

  // ---------------------------------------------------------- tag selection

  /**
   * The tags to anonymize: the built-in list when no list (or an empty
   * one) is given, else the stripped non-empty entries of the
   * comma-separated list.
   */
  function SelectAnonTags(anonymizeTags: Option<string>): (r: seq<string>)
    ensures anonymizeTags.None? || anonymizeTags.value == "" ==> r == DEFAULT_ANON_TAGS
    ensures forall i :: 0 <= i < |r| ==> r[i] != ""
  {
    if anonymizeTags.None? || anonymizeTags.value == "" then DEFAULT_ANON_TAGS
    else PyText.StrippedFields(anonymizeTags.value, ',')
  }

  /**
   * A supplied list selects exactly its own entries: no defaults are
   * added and none of its entries is lost.
   */
  lemma {:induction false} SelectSuppliedTags(tags: seq<string>)
    requires |tags| >= 1
    requires forall i :: 0 <= i < |tags| ==> tags[i] != "" && PyText.Strip(tags[i]) == tags[i] && ',' !in tags[i]
    ensures SelectAnonTags(Some(PyText.Join(tags, [',']))) == tags
  {
    var joined := PyText.Join(tags, [',']);
    PyText.StrippedFieldsOfJoin(tags, ',');
    assert PyText.StrippedFields(joined, ',') == tags;
    PyText.JoinStartsWithFirst(tags, [',']);
    assert |tags[0]| > 0;
  }
}
