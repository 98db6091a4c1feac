/**
 * The three full scans of Task3's API over the index: `find_by_diagnosis`,
 * `most_common_treatment` and `debug_patients`. Each walks the records in scan
 * order, skips records without metadata, and keeps, for every patient id, only the
 * first record that passes its test; the `seen` set (the `patients` dictionary in
 * `debug_patients`) is what enforces that.
 */
module PatientScans {
  import opened Wrappers
  import opened Text
  import opened Store
  import opened Sequences

  // ---------------------------------------------------------------------------
  // First record per patient
  // ---------------------------------------------------------------------------

  /** The test a scan applies to a record that has metadata. */
  datatype Criterion =
    | MatchesDiagnosis(query: string)  // find_by_diagnosis, given the normalised query
    | HasTreatment                     // most_common_treatment
    | HasPatientId                     // debug_patients

  predicate Passes(c: Criterion, r: Record) {
    match c
    case MatchesDiagnosis(q) => IsMatch(q, r)
    case HasTreatment => Meta(r, "treatment", "") != ""
    case HasPatientId => PatientId(r) != ""
  }

  /** Record `j` has metadata and passes the test. */
  predicate Eligible(rs: seq<Record>, c: Criterion, j: int) {
    0 <= j < |rs| && HasMetadata(rs[j]) && Passes(c, rs[j])
  }

  /** Record `i` is eligible and no earlier eligible record has its patient id. */
  predicate IsFirst(rs: seq<Record>, c: Criterion, i: int) {
    && Eligible(rs, c, i)
    && forall j :: 0 <= j < i && Eligible(rs, c, j) ==> PatientId(rs[j]) != PatientId(rs[i])
  }

  /** The indices below `n` of the records that are first for their patient, in
      scan order. */
  function FirstUpTo(rs: seq<Record>, c: Criterion, n: nat): (idx: seq<nat>)
    requires n <= |rs|
    ensures |idx| <= n
    ensures forall k :: 0 <= k < |idx| ==> idx[k] < n && IsFirst(rs, c, idx[k])
    ensures forall i :: 0 <= i < n && IsFirst(rs, c, i) ==> i in idx
    ensures forall k, l :: 0 <= k < l < |idx| ==> idx[k] < idx[l]
  {
    if n == 0 then [] else FirstUpTo(rs, c, n - 1) + (if IsFirst(rs, c, n - 1) then [n - 1] else [])
  }

  /** The first record of each patient over the whole scan. */
  function FirstPerPatient(rs: seq<Record>, c: Criterion): seq<nat> {
    FirstUpTo(rs, c, |rs|)
  }

  /** The patient ids of the eligible records before index `n`: the `seen` set. */
  ghost function SeenBefore(rs: seq<Record>, c: Criterion, n: nat): set<string>
    requires n <= |rs|
  {
    set j | 0 <= j < n && Eligible(rs, c, j) :: PatientId(rs[j])
  }

  lemma SeenBeforeStep(rs: seq<Record>, c: Criterion, n: nat)
    requires n < |rs|
    ensures SeenBefore(rs, c, n + 1)
            == SeenBefore(rs, c, n) + (if Eligible(rs, c, n) then {PatientId(rs[n])} else {})
  {
    var next := SeenBefore(rs, c, n + 1);
    var prev := SeenBefore(rs, c, n);
    forall p | p in next
      ensures p in prev || (Eligible(rs, c, n) && p == PatientId(rs[n]))
    {
      var j :| 0 <= j < n + 1 && Eligible(rs, c, j) && PatientId(rs[j]) == p;
    }
  }

  /** The kept records of one step further: record `n` joins exactly when it is
      eligible and its patient is not yet in `seen`. */
  lemma ScanStep(rs: seq<Record>, c: Criterion, n: nat)
    requires n < |rs|
    ensures SeenBefore(rs, c, n + 1)
            == SeenBefore(rs, c, n) + (if Eligible(rs, c, n) then {PatientId(rs[n])} else {})
    ensures FirstUpTo(rs, c, n + 1)
            == FirstUpTo(rs, c, n)
               + (if Eligible(rs, c, n) && PatientId(rs[n]) !in SeenBefore(rs, c, n) then [n] else [])
  {
    SeenBeforeStep(rs, c, n);
    IsFirstBySeen(rs, c, n);
  }

  /** A scan at record `n` keeps it exactly when it has metadata, its patient is not
      yet in `seen`, and it passes the test. */
  lemma IsFirstBySeen(rs: seq<Record>, c: Criterion, n: nat)
    requires n < |rs|
    ensures IsFirst(rs, c, n)
            <==> Eligible(rs, c, n) && PatientId(rs[n]) !in SeenBefore(rs, c, n)
  {
    if PatientId(rs[n]) in SeenBefore(rs, c, n) {
      var j :| 0 <= j < n && Eligible(rs, c, j) && PatientId(rs[j]) == PatientId(rs[n]);
    }
  }

  /** No two kept records share a patient id. */
  lemma FirstPerPatientDistinct(rs: seq<Record>, c: Criterion)
    ensures var idx := FirstPerPatient(rs, c);
      forall k, l :: 0 <= k < l < |idx| ==> PatientId(rs[idx[k]]) != PatientId(rs[idx[l]])
  {
    var idx := FirstPerPatient(rs, c);
    forall k, l | 0 <= k < l < |idx|
      ensures PatientId(rs[idx[k]]) != PatientId(rs[idx[l]])
    {
      assert idx[k] < idx[l] && Eligible(rs, c, idx[k]) && IsFirst(rs, c, idx[l]);
    }
  }

  /** Every patient with an eligible record is represented by a kept record that
      comes no later. */
  lemma {:induction false} FirstPerPatientCovers(rs: seq<Record>, c: Criterion, j: nat)
    requires Eligible(rs, c, j)
    ensures exists k :: 0 <= k < |FirstPerPatient(rs, c)|
                        && FirstPerPatient(rs, c)[k] <= j
                        && PatientId(rs[FirstPerPatient(rs, c)[k]]) == PatientId(rs[j])
    decreases j
  {
    var idx := FirstPerPatient(rs, c);
    if IsFirst(rs, c, j) {
      assert j in idx;
      var k :| 0 <= k < |idx| && idx[k] == j;
    } else {
      var j' :| 0 <= j' < j && Eligible(rs, c, j') && PatientId(rs[j']) == PatientId(rs[j]);
      FirstPerPatientCovers(rs, c, j');
    }
  }

  // ---------------------------------------------------------------------------
  // find_by_diagnosis
  // ---------------------------------------------------------------------------

  /** The hard-coded synonyms of the two expanded diagnoses. */
  const HeadacheTerms: seq<string> := ["headache", "migraine", "cephalgia"]
  const DiabetesTerms: seq<string> := ["diabetes", "diabetic", "blood glucose"]

  /** `any(t in text for t in terms)`. */
  predicate AnyIn(text: string, terms: seq<string>) {
    exists t :: t in terms && Contains(text, t)
  }

  /** `diagnosis.lower().strip()`, the form the query is matched in. */
  function Normalize(diagnosis: string): string {
    Strip(Lower(diagnosis))
  }

  /** The match test of `find_by_diagnosis` for the normalised query `q`: a substring
      of the lower-cased diagnosis field or of the lower-cased full note (the chunk's
      text when the metadata has no `full_note` key), or a synonym hit. */
  predicate IsMatch(q: string, r: Record) {
    var docDiag := Lower(Meta(r, "diagnosis", ""));
    var fullNote := Lower(Meta(r, "full_note", r.content));
    || Contains(docDiag, q)
    || Contains(fullNote, q)
    || (q == "headache" && AnyIn(fullNote, HeadacheTerms))
    || (q == "diabetes" && AnyIn(fullNote, DiabetesTerms))
  }

  /** One entry of `find_by_diagnosis`'s answer. */
  datatype DiagnosisMatch =
    DiagnosisMatch(patientId: string, name: string, age: string, diagnosis: string, note: string)

  function ToMatch(r: Record): DiagnosisMatch {
    DiagnosisMatch(PatientId(r), Meta(r, "name", ""), Meta(r, "age", ""),
                   Meta(r, "diagnosis", ""), Meta(r, "full_note", r.content))
  }

  /** The answer of `find_by_diagnosis(diagnosis)`: in scan order, the first
      matching record of every patient. */
  function DiagnosisMatches(records: seq<Record>, diagnosis: string): seq<DiagnosisMatch> {
    Project(records, FirstPerPatient(records, MatchesDiagnosis(Normalize(diagnosis))), ToMatch)
  }

  /** `find_by_diagnosis(diagnosis)` over the records of a full scan. */
  method FindByDiagnosis(records: seq<Record>, diagnosis: string) returns (matches: seq<DiagnosisMatch>)
    ensures matches == DiagnosisMatches(records, diagnosis)
  {
    var q := Strip(Lower(diagnosis));
    ghost var c := MatchesDiagnosis(q);
    matches := [];
    var seen: set<string> := {};
    for i := 0 to |records|
      invariant seen == SeenBefore(records, c, i)
      invariant matches == Project(records, FirstUpTo(records, c, i), ToMatch)
    {
      ScanStep(records, c, i);
      ProjectAppend(records, FirstUpTo(records, c, i), i, ToMatch);
      var r := records[i];
      if !HasMetadata(r) {
        continue;
      }
      var patientId := PatientId(r);
      if patientId in seen {
        continue;
      }
      if IsMatch(q, r) {
        seen := seen + {patientId};
        matches := matches + [ToMatch(r)];
      }
    }
  }

  /** `m` is the entry of a record with metadata that matches the normalised
      query `q`. */
  predicate MatchOfRecord(records: seq<Record>, q: string, m: DiagnosisMatch) {
    exists j :: 0 <= j < |records| && HasMetadata(records[j]) && IsMatch(q, records[j]) && m == ToMatch(records[j])
  }

  /** Every listed match is a record with metadata that matches the normalised
      query, and no patient is listed twice. */
  lemma DiagnosisMatchesFacts(records: seq<Record>, diagnosis: string)
    ensures forall k :: 0 <= k < |DiagnosisMatches(records, diagnosis)| ==>
      MatchOfRecord(records, Normalize(diagnosis), DiagnosisMatches(records, diagnosis)[k])
    ensures forall k, l :: 0 <= k < l < |DiagnosisMatches(records, diagnosis)| ==>
      DiagnosisMatches(records, diagnosis)[k].patientId != DiagnosisMatches(records, diagnosis)[l].patientId
  {
    var c := MatchesDiagnosis(Normalize(diagnosis));
    var idx := FirstPerPatient(records, c);
    var ms := DiagnosisMatches(records, diagnosis);
    FirstPerPatientDistinct(records, c);
    forall k | 0 <= k < |ms|
      ensures MatchOfRecord(records, Normalize(diagnosis), ms[k])
    {
      assert Eligible(records, c, idx[k]);
      assert ms[k] == ToMatch(records[idx[k]]);
    }
    forall k, l | 0 <= k < l < |ms|
      ensures ms[k].patientId != ms[l].patientId
    {
      assert ms[k].patientId == PatientId(records[idx[k]]);
      assert ms[l].patientId == PatientId(records[idx[l]]);
    }
  }

  /** The answer depends only on `lower(strip(diagnosis))`: queries that differ in
      letter case or surrounding whitespace are matched alike. */
  lemma NormalizeIgnoresCaseAndSpace(records: seq<Record>, d1: string, d2: string)
    requires Lower(Strip(d1)) == Lower(Strip(d2))
    ensures Normalize(d1) == Normalize(d2)
    ensures DiagnosisMatches(records, d1) == DiagnosisMatches(records, d2)
  {
    LowerStripCommute(d1);
    LowerStripCommute(d2);
    var s1, s2 := Strip(Lower(d1)), Strip(Lower(d2));
    StripOfStripped(s1);
    StripOfStripped(s2);
  }

  /** A diagnosis of only whitespace passes the empty-input guard of
      `/which_patients` but normalises to "", which every record matches: each
      patient with metadata is then listed once. */
  lemma BlankDiagnosisMatchesEveryone(records: seq<Record>, diagnosis: string, j: nat)
    requires diagnosis != "" && AllSpace(diagnosis)
    requires j < |records| && HasMetadata(records[j])
    ensures Normalize(diagnosis) == ""
    ensures IsMatch(Normalize(diagnosis), records[j])
    ensures var idx := FirstPerPatient(records, MatchesDiagnosis(Normalize(diagnosis)));
      exists k :: 0 <= k < |idx| && PatientId(records[idx[k]]) == PatientId(records[j])
  {
    var low := Lower(diagnosis);
    assert AllSpace(low) by {
      forall i | 0 <= i < |low| ensures IsSpace(low[i]) {
        LowerCharKeepsSpace(diagnosis[i]);
      }
    }
    StripEmptyIff(low);
    ContainsEmpty(Lower(Meta(records[j], "diagnosis", "")));
    FirstPerPatientCovers(records, MatchesDiagnosis(""), j);
  }

  // ---------------------------------------------------------------------------
  // most_common_treatment
  // ---------------------------------------------------------------------------

  /** The answer of `most_common_treatment`. */
  datatype TreatmentSummary =
    | NoTreatmentsFound
    | TreatmentSummary(mostCommon: string, frequency: nat, totalAnalyzed: nat)

  /** The treatments the scan collects: that of each patient's first record with a
      non-empty treatment, in scan order. */
  function CollectedTreatments(rs: seq<Record>): seq<string> {
    Project(rs, FirstPerPatient(rs, HasTreatment), TreatmentOf)
  }

  /** `metadata.get("treatment", "")`. */
  function TreatmentOf(r: Record): string {
    Meta(r, "treatment", "")
  }

  /** The first element of `xs[i..]` among those that occur most often in `xs`:
      what `Counter(xs).most_common(1)` reports, whose keys keep first-seen order. */
  function MostFrequentFrom(xs: seq<string>, i: nat): (best: string)
    requires i < |xs|
    ensures best in xs[i..]
    ensures forall j :: i <= j < |xs| ==> multiset(xs)[xs[j]] <= multiset(xs)[best]
    decreases |xs| - i
  {
    if i == |xs| - 1 then xs[i]
    else
      var b := MostFrequentFrom(xs, i + 1);
      if multiset(xs)[xs[i]] >= multiset(xs)[b] then xs[i] else b
  }

  /** `summary` is a correct answer for the records: the error exactly when no
      treatment is collected, and otherwise a most frequent collected treatment, its
      count, and how many were collected. Which of several equally frequent
      treatments is reported is left open. */
  predicate Summarizes(records: seq<Record>, summary: TreatmentSummary) {
    var ts := CollectedTreatments(records);
    && (summary.NoTreatmentsFound? <==> ts == [])
    && (summary.TreatmentSummary? ==>
          && summary.totalAnalyzed == |ts|
          && summary.mostCommon in ts
          && summary.frequency == multiset(ts)[summary.mostCommon]
          && forall t :: t in ts ==> multiset(ts)[t] <= summary.frequency)
  }

  /** `most_common_treatment()` over the records of a full scan. */
  method MostCommonTreatment(records: seq<Record>) returns (summary: TreatmentSummary)
    ensures Summarizes(records, summary)
  {
    ghost var c := HasTreatment;
    var treatments: seq<string> := [];
    var seen: set<string> := {};
    for i := 0 to |records|
      invariant seen == SeenBefore(records, c, i)
      invariant treatments == Project(records, FirstUpTo(records, c, i), TreatmentOf)
    {
      ScanStep(records, c, i);
      ProjectAppend(records, FirstUpTo(records, c, i), i, TreatmentOf);
      var r := records[i];
      if !HasMetadata(r) {
        continue;
      }
      var patientId := PatientId(r);
      var treatment := Meta(r, "treatment", "");
      if treatment != "" && patientId !in seen {
        seen := seen + {patientId};
        treatments := treatments + [treatment];
      }
    }
    if treatments == [] {
      return NoTreatmentsFound;
    }
    var best := MostFrequentFrom(treatments, 0);
    assert treatments[0..] == treatments;
    summary := TreatmentSummary(best, multiset(treatments)[best], |treatments|);
  }

  /** Each patient contributes at most one treatment, and every collected treatment
      is non-empty; no treatment is collected exactly when no record with metadata
      has a non-empty treatment. */
  lemma CollectedTreatmentsFacts(rs: seq<Record>)
    ensures forall t :: t in CollectedTreatments(rs) ==> t != ""
    ensures |CollectedTreatments(rs)| <= |rs|
    ensures CollectedTreatments(rs) == [] <==>
              forall j :: 0 <= j < |rs| && HasMetadata(rs[j]) ==> Meta(rs[j], "treatment", "") == ""
  {
    var idx := FirstPerPatient(rs, HasTreatment);
    if j :| 0 <= j < |rs| && HasMetadata(rs[j]) && Meta(rs[j], "treatment", "") != "" {
      FirstPerPatientCovers(rs, HasTreatment, j);
    }
    forall t | t in CollectedTreatments(rs) ensures t != "" {
      var k :| 0 <= k < |idx| && CollectedTreatments(rs)[k] == t;
      assert t == TreatmentOf(rs[idx[k]]);
      assert Eligible(rs, HasTreatment, idx[k]);
    }
  }

  // ---------------------------------------------------------------------------
  // debug_patients
  // ---------------------------------------------------------------------------

  /** One entry of `debug_patients`'s listing. */
  datatype PatientEntry = PatientEntry(patientId: string, name: string, diagnosis: string, treatment: string)

  datatype PatientListing = PatientListing(totalPatients: nat, patients: seq<PatientEntry>)

  function ToEntry(r: Record): PatientEntry {
    PatientEntry(PatientId(r), Meta(r, "name", ""), Meta(r, "diagnosis", ""), Meta(r, "treatment", ""))
  }

  /** The entries `debug_patients` lists: in scan order, the first record of every
      patient with a non-empty id. */
  function DebugEntries(records: seq<Record>): seq<PatientEntry> {
    Project(records, FirstPerPatient(records, HasPatientId), ToEntry)
  }

  /** `debug_patients()` over the records of a full scan. Python's `patients`
      dictionary only ever gains keys that are absent, so it is held here as its key
      set `keys` and `values`, its values in insertion order: `len(patients)` is
      `|keys|` and `list(patients.values())` is `values`. */
  method DebugPatients(records: seq<Record>) returns (listing: PatientListing)
    ensures listing.patients == DebugEntries(records)
    ensures listing.totalPatients == |DebugEntries(records)|
  {
    ghost var c := HasPatientId;
    var keys: set<string> := {};
    var values: seq<PatientEntry> := [];
    for i := 0 to |records|
      invariant keys == SeenBefore(records, c, i)
      invariant |keys| == |values|
      invariant values == Project(records, FirstUpTo(records, c, i), ToEntry)
    {
      ScanStep(records, c, i);
      ProjectAppend(records, FirstUpTo(records, c, i), i, ToEntry);
      var r := records[i];
      if !HasMetadata(r) {
        continue;
      }
      var patientId := PatientId(r);
      if patientId != "" && patientId !in keys {
        keys := keys + {patientId};
        values := values + [ToEntry(r)];
      }
    }
    listing := PatientListing(|keys|, values);
  }

  /** The listing names each patient once, and never under the empty id. */
  lemma DebugEntriesDistinct(records: seq<Record>)
    ensures forall k :: 0 <= k < |DebugEntries(records)| ==> DebugEntries(records)[k].patientId != ""
    ensures forall k, l :: 0 <= k < l < |DebugEntries(records)| ==>
      DebugEntries(records)[k].patientId != DebugEntries(records)[l].patientId
  {
    var idx := FirstPerPatient(records, HasPatientId);
    var es := DebugEntries(records);
    FirstPerPatientDistinct(records, HasPatientId);
    forall k | 0 <= k < |es|
      ensures es[k].patientId == PatientId(records[idx[k]]) != ""
    {
      assert Eligible(records, HasPatientId, idx[k]);
      assert es[k] == ToEntry(records[idx[k]]);
    }
  }

  /** The listing misses no patient that has a record with metadata and a
      non-empty id. */
  lemma DebugEntriesCover(records: seq<Record>, j: nat)
    requires j < |records| && HasMetadata(records[j]) && PatientId(records[j]) != ""
    ensures exists k :: 0 <= k < |DebugEntries(records)| && DebugEntries(records)[k].patientId == PatientId(records[j])
  {
    var idx := FirstPerPatient(records, HasPatientId);
    var es := DebugEntries(records);
    FirstPerPatientCovers(records, HasPatientId, j);
    var k :| 0 <= k < |idx| && idx[k] <= j && PatientId(records[idx[k]]) == PatientId(records[j]);
    assert es[k] == ToEntry(records[idx[k]]);
  }
}
