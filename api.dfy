/**
 * The endpoints of Task3's API that answer questions: `/query`, which routes a
 * natural-language question to one of three answers, and `/which_patients`, which
 * runs the diagnosis search for an explicit diagnosis. The scans they call are in
 * `PatientScans`; the similarity search of the vector index is not modelled and
 * enters `Query` as what it returned, or `None` when it raised.
 */
module Api {
  import opened Wrappers
  import opened Text
  import opened Store
  import opened PatientScans
  import opened QueryExtraction

  /** The phrases that make a question a diagnosis question. */
  const DiagnosisPhrases: seq<string> :=
    ["which patients", "who has", "who have", "patients with", "diagnosed with"]

  const GuidanceError: string := "Could not extract diagnosis. Try: 'Which patients have pneumonia?'"
  const SearchFailedError: string := "Query failed. Try specific questions about patients or treatments."
  const MissingDiagnosisDetail: string := "Provide ?diagnosis=..."

  /** How many chunks `/query` asks the similarity search for. */
  const SearchK: nat := 3

  /** The branch `/query` takes. */
  datatype Intent = WhichPatientsIntent | MostCommonTreatmentIntent | SemanticSearchIntent

  /** The branch for the normalised question `qtxt`: a diagnosis phrase wins over
      the treatment test, and everything else goes to the similarity search. */
  function Classify(qtxt: string): Intent {
    if AnyIn(qtxt, DiagnosisPhrases) then WhichPatientsIntent
    else if Contains(qtxt, "most") && Contains(qtxt, "treatment") then MostCommonTreatmentIntent
    else SemanticSearchIntent
  }

  /** One result of the similarity search: the chunk's text and its metadata. */
  datatype SearchHit = SearchHit(content: string, metadata: Metadata)

  /** The JSON objects `/query` returns. */
  datatype QueryAnswer =
    | PatientsFound(diagnosis: string, matches: seq<DiagnosisMatch>, count: nat)
    | TreatmentAnswer(summary: TreatmentSummary)
    | SemanticResults(results: seq<SearchHit>)
    | QueryError(message: string)

  /** The answer of the diagnosis branch for the normalised question `qtxt`. */
  function DiagnosisAnswer(records: seq<Record>, qtxt: string): QueryAnswer {
    var diagnosis := ExtractDiagnosis(qtxt);
    if diagnosis == "" then QueryError(GuidanceError)
    else
      var matches := DiagnosisMatches(records, diagnosis);
      PatientsFound(diagnosis, matches, |matches|)
  }

  /** `POST /query` over the records of a full scan; `search` is what
      `similarity_search(q, k=3)` gives for the raw question, `None` if it raises,
      and like that search it holds at most `k` chunks. The question is
      normalised as `q.lower().strip()`. */
  method Query(records: seq<Record>, q: string, search: Option<seq<SearchHit>>) returns (answer: QueryAnswer)
    requires search.Some? ==> |search.value| <= SearchK
    ensures answer.SemanticResults? ==> |answer.results| <= SearchK
    ensures var qtxt := Strip(Lower(q));
      match Classify(qtxt)
      case WhichPatientsIntent => answer == DiagnosisAnswer(records, qtxt)
      case MostCommonTreatmentIntent => answer.TreatmentAnswer? && Summarizes(records, answer.summary)
      case SemanticSearchIntent =>
        answer == (if search.Some? then SemanticResults(search.value) else QueryError(SearchFailedError))
  {
    var qtxt := Strip(Lower(q));
    var intent := Classify(qtxt);
    if intent == WhichPatientsIntent {
      var diagnosis := ExtractDiagnosis(qtxt);
      if diagnosis != "" {
        var matches := FindByDiagnosis(records, diagnosis);
        return PatientsFound(diagnosis, matches, |matches|);
      }
      return QueryError(GuidanceError);
    } else if intent == MostCommonTreatmentIntent {
      var summary := MostCommonTreatment(records);
      return TreatmentAnswer(summary);
    } else {
      match search
      case Some(results) => return SemanticResults(results);
      case None => return QueryError(SearchFailedError);
    }
  }

  /** A settled diagnosis is already in the form `find_by_diagnosis` matches in:
      lowering and stripping it again changes nothing. */
  lemma NormalizeSettled(d: string)
    requires Settled(d)
    ensures Normalize(d) == d
  {
    assert Lower(d) == d by {
      forall i | 0 <= i < |d|
        ensures Lower(d)[i] == d[i]
      {
        assert d[i] in d;
      }
    }
    StripOfStripped(d);
  }

  /** The diagnosis branch answers with the guidance error exactly when nothing
      was extracted; otherwise it names a settled diagnosis, searched as it stands,
      and counts the matches it lists. */
  lemma DiagnosisAnswerFacts(records: seq<Record>, qtxt: string)
    ensures DiagnosisAnswer(records, qtxt).QueryError? <==> ExtractDiagnosis(qtxt) == ""
    ensures DiagnosisAnswer(records, qtxt).PatientsFound? ==>
      var d := DiagnosisAnswer(records, qtxt).diagnosis;
      && d == ExtractDiagnosis(qtxt) && d != "" && Settled(d) && Normalize(d) == d
      && DiagnosisAnswer(records, qtxt).matches == DiagnosisMatches(records, d)
      && DiagnosisAnswer(records, qtxt).count == |DiagnosisMatches(records, d)|
  {
    var d := ExtractDiagnosis(qtxt);
    ExtractDiagnosisSettled(qtxt);
    if d != "" {
      NormalizeSettled(d);
    }
  }

  /** The answers of `GET /which_patients`. */
  datatype WhichPatientsAnswer =
    | HttpError(status: nat, detail: string)
    | PatientsFor(diagnosisSearched: string, matches: seq<DiagnosisMatch>, count: nat)

  /** `GET /which_patients?diagnosis=...` over the records of a full scan: an empty
      diagnosis is refused with status 400 before any scan. */
  method WhichPatients(records: seq<Record>, diagnosis: string) returns (answer: WhichPatientsAnswer)
    ensures diagnosis == "" <==> answer.HttpError?
    ensures answer.HttpError? ==> answer == HttpError(400, MissingDiagnosisDetail)
    ensures answer.PatientsFor? ==>
      && answer.diagnosisSearched == diagnosis
      && answer.matches == DiagnosisMatches(records, diagnosis)
      && answer.count == |answer.matches|
  {
    if diagnosis == "" {
      return HttpError(400, MissingDiagnosisDetail);
    }
    var matches := FindByDiagnosis(records, diagnosis);
    return PatientsFor(diagnosis, matches, |matches|);
  }
}
