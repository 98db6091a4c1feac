/**
 * The conversion step of Task3's ingestion script: every note of the loaded JSON
 * list whose text is not blank becomes one document, whose text is the stripped
 * note and whose metadata holds the patient fields, the three extracted fields and
 * the note itself. These metadata are what the scans of the query layer read.
 */
module Ingest {
  import opened Wrappers
  import opened Text
  import opened Store
  import opened Sequences
  import opened FieldExtraction

  /** The `age` value of a note, as `str(note.get("age", ""))` sees it. */
  datatype AgeField =
    | AgeMissing            // no "age" key: str("") is ""
    | AgeNull               // JSON null: str(None) is "None"
    | AgeInt(years: int)    // a JSON integer
    | AgeText(text: string) // a JSON string

  /** One entry of the notes list: each key may be absent. */
  datatype RawNote = RawNote(note: Option<string>, patientId: Option<string>,
                             name: Option<string>, age: AgeField)

  /** A document handed to the index: its text and its metadata. */
  datatype Document = Document(pageContent: string, metadata: Metadata)

  /** `note.get(key, "")` for a string-valued key. */
  function OrEmpty(v: Option<string>): string {
    if v.Some? then v.value else ""
  }

  function DigitChar(d: nat): char
    requires d < 10
  {
    "0123456789"[d]
  }

  /** The decimal digits of `n`, most significant first. */
  function Digits(n: nat): (s: string)
    ensures |s| > 0 && forall i :: 0 <= i < |s| ==> '0' <= s[i] <= '9'
    ensures s[0] == '0' ==> n == 0
  {
    if n < 10 then [DigitChar(n)] else Digits(n / 10) + [DigitChar(n % 10)]
  }

  /** `str(n)` for an integer. */
  function Decimal(n: int): string {
    if n < 0 then "-" + Digits(-n) else Digits(n)
  }

  /** The value of a string of decimal digits, read as `int(s)` would. */
  function DigitsValue(s: string): int
    requires forall i :: 0 <= i < |s| ==> '0' <= s[i] <= '9'
  {
    if s == [] then 0 else 10 * DigitsValue(s[..|s| - 1]) + (s[|s| - 1] as int - '0' as int)
  }

  /** `int(str(n)) == n`: the age string keeps the integer it came from. */
  lemma {:induction false} DigitsRoundTrip(n: nat)
    ensures DigitsValue(Digits(n)) == n
  {
    if n >= 10 {
      DigitsRoundTrip(n / 10);
      var s := Digits(n);
      assert s[..|s| - 1] == Digits(n / 10);
    }
  }

  lemma DecimalRoundTrip(n: int)
    ensures var s := Decimal(n);
      if n < 0 then s[0] == '-' && DigitsValue(s[1..]) == -n else DigitsValue(s) == n
  {
    if n < 0 {
      DigitsRoundTrip(-n);
      assert Decimal(n)[1..] == Digits(-n);
    } else {
      DigitsRoundTrip(n);
    }
  }

  /** `str(note.get("age", ""))`. */
  function AgeString(age: AgeField): string {
    match age
    case AgeMissing => ""
    case AgeNull => "None"
    case AgeInt(n) => Decimal(n)
    case AgeText(s) => s
  }

  /** The three fields `extract_field` finds in a note. */
  datatype NoteFields = NoteFields(diagnosis: string, treatment: string, followup: string)

  function ExtractNoteFields(content: string): NoteFields {
    NoteFields(ExtractField(content, "Diagnosis"), ExtractField(content, "Treatment"),
               ExtractField(content, "Follow-up"))
  }

  /** `diagnosis.lower() if diagnosis else ""`. */
  function DiagnosisKey(diagnosis: string): string {
    if diagnosis != "" then Lower(diagnosis) else ""
  }

  /** The metadata stored with a note's document, `content` being the stripped
      note and `fields` what was extracted from it. */
  function NoteMetadata(n: RawNote, content: string, fields: NoteFields): Metadata {
    map[
      "patient_id" := OrEmpty(n.patientId),
      "name" := OrEmpty(n.name),
      "age" := AgeString(n.age),
      "diagnosis" := DiagnosisKey(fields.diagnosis),
      "treatment" := fields.treatment,
      "followup" := fields.followup,
      "full_note" := content]
  }

  /** `note.get("note", "").strip()`. */
  function NoteBody(n: RawNote): string {
    Strip(OrEmpty(n.note))
  }

  /** The document for note `n`, whose stripped text is `content`. */
  function DocumentOf(n: RawNote, content: string): Document {
    Document(content, NoteMetadata(n, content, ExtractNoteFields(content)))
  }

  /** The document made from a note that is not blank. */
  function ToDocument(n: RawNote): Document {
    DocumentOf(n, NoteBody(n))
  }

  /** `strip()` leaves nothing of the note: it is missing or all whitespace. */
  predicate Blank(n: RawNote) {
    AllSpace(OrEmpty(n.note))
  }

  /** The indices below `n` of the notes that are not blank, in list order. */
  function KeptUpTo(notes: seq<RawNote>, n: nat): (idx: seq<nat>)
    requires n <= |notes|
    ensures forall k :: 0 <= k < |idx| ==> idx[k] < n
  {
    if n == 0 then [] else KeptUpTo(notes, n - 1) + (if Blank(notes[n - 1]) then [] else [n - 1])
  }

  /** Each kept index is a note below `n` that is not blank. */
  lemma {:induction false} KeptUpToSound(notes: seq<RawNote>, n: nat)
    requires n <= |notes|
    ensures var idx := KeptUpTo(notes, n);
      |idx| <= n && forall k :: 0 <= k < |idx| ==> !Blank(notes[idx[k]])
  {
    if n > 0 {
      KeptUpToSound(notes, n - 1);
      var prev := KeptUpTo(notes, n - 1);
      assert KeptUpTo(notes, n) == prev + (if Blank(notes[n - 1]) then [] else [n - 1]);
    }
  }

  /** Every note below `n` that is not blank is kept. */
  lemma {:induction false} KeptUpToComplete(notes: seq<RawNote>, n: nat)
    requires n <= |notes|
    ensures forall i :: 0 <= i < n && !Blank(notes[i]) ==> i in KeptUpTo(notes, n)
  {
    if n > 0 {
      KeptUpToComplete(notes, n - 1);
      var prev := KeptUpTo(notes, n - 1);
      assert KeptUpTo(notes, n) == prev + (if Blank(notes[n - 1]) then [] else [n - 1]);
    }
  }

  /** The kept indices increase: the documents follow the order of the notes. */
  lemma {:induction false} KeptUpToIncreasing(notes: seq<RawNote>, n: nat)
    requires n <= |notes|
    ensures forall k, l :: 0 <= k < l < |KeptUpTo(notes, n)| ==> KeptUpTo(notes, n)[k] < KeptUpTo(notes, n)[l]
  {
    if n > 0 {
      KeptUpToIncreasing(notes, n - 1);
      var prev := KeptUpTo(notes, n - 1);
      var idx := KeptUpTo(notes, n);
      assert idx == prev + (if Blank(notes[n - 1]) then [] else [n - 1]);
      forall k, l | 0 <= k < l < |idx|
        ensures idx[k] < idx[l]
      {
        if l == |prev| {
          assert idx[k] == prev[k] < n - 1 == idx[l];
        } else {
          assert idx[k] == prev[k] < prev[l] == idx[l];
        }
      }
    }
  }

  function Kept(notes: seq<RawNote>): seq<nat> {
    KeptUpTo(notes, |notes|)
  }

  /** The items of the notes below `n` that are not blank, built one note at a
      time as the loop does. */
  function Converted<T>(notes: seq<RawNote>, n: nat, f: RawNote -> T): seq<T>
    requires n <= |notes|
  {
    if n == 0 then []
    else Converted(notes, n - 1, f) + (if Blank(notes[n - 1]) then [] else [f(notes[n - 1])])
  }

  /** Built note by note, the items are those of the kept indices, in order. */
  lemma {:induction false} ConvertedIsProject<T>(notes: seq<RawNote>, n: nat, f: RawNote -> T)
    requires n <= |notes|
    ensures Converted(notes, n, f) == Project(notes, KeptUpTo(notes, n), f)
  {
    if n > 0 {
      ConvertedIsProject(notes, n - 1, f);
      var idx := KeptUpTo(notes, n - 1);
      if Blank(notes[n - 1]) {
        assert KeptUpTo(notes, n) == idx;
      } else {
        assert KeptUpTo(notes, n) == idx + [n - 1];
        ProjectAppend(notes, idx, n - 1, f);
      }
    }
  }

  /** `if not content: continue` skips exactly the blank notes. */
  lemma BlankIffEmpty(n: RawNote)
    ensures Blank(n) <==> Strip(OrEmpty(n.note)) == ""
  {
    StripEmptyIff(OrEmpty(n.note));
  }

  /** The conversion loop of `ingest`: one document per note that is not blank,
      in the order of the notes. */
  method ConvertNotes(notes: seq<RawNote>) returns (docs: seq<Document>)
    ensures docs == Project(notes, Kept(notes), ToDocument)
  {
    docs := [];
    for i := 0 to |notes|
      invariant docs == Converted(notes, i, ToDocument)
    {
      BlankIffEmpty(notes[i]);
      var content := Strip(OrEmpty(notes[i].note));
      if content == "" {
        continue;
      }
      var doc := MakeDocument(notes[i], content);
      docs := docs + [doc];
    }
    ConvertedIsProject(notes, |notes|, ToDocument);
  }

  /** The body of the loop for a note that is kept: extract the three fields from
      the stripped text and build the document. Its text and its `full_note` are
      that stripped text; the stored diagnosis is lower case and found in the
      lower-cased text; the treatment and follow-up are "" or pieces of the text
      that start with no whitespace and do not end with a period. */
  method MakeDocument(n: RawNote, content: string) returns (doc: Document)
    requires content == NoteBody(n)
    ensures doc == ToDocument(n)
    ensures doc.pageContent == content && doc.metadata["full_note"] == content
    ensures var d := doc.metadata["diagnosis"];
      Lower(d) == d && (d != "" ==> Contains(Lower(content), d))
    ensures var t := doc.metadata["treatment"];
      t != "" ==> !IsSpace(t[0]) && t[|t| - 1] != '.' && Contains(content, t)
    ensures var f := doc.metadata["followup"];
      f != "" ==> !IsSpace(f[0]) && f[|f| - 1] != '.' && Contains(content, f)
  {
    var diagnosis := ExtractField(content, "Diagnosis");
    var treatment := ExtractField(content, "Treatment");
    var followup := ExtractField(content, "Follow-up");
    DiagnosisStored(content);
    ExtractFieldShape(content, "Treatment");
    ExtractFieldShape(content, "Follow-up");
    var fields := NoteFields(diagnosis, treatment, followup);
    MetadataFacts(n, content, fields);
    doc := Document(content, NoteMetadata(n, content, fields));
  }

  /** The record the index returns for a stored document. */
  function AsRecord(d: Document): Record {
    Record(d.pageContent, Some(d.metadata))
  }

  /** A note that is not blank gives a non-empty text with no whitespace at either
      end. */
  lemma NoteBodyShape(n: RawNote)
    requires !Blank(n)
    ensures var body := NoteBody(n);
      body != "" && !IsSpace(body[0]) && !IsSpace(body[|body| - 1]) && Contains(OrEmpty(n.note), body)
  {
    var raw := OrEmpty(n.note);
    StripEmptyIff(raw);
    assert OccursAt(raw, NoteBody(n), LeadingSpaces(raw));
    ContainsIff(raw, NoteBody(n));
  }

  /** The metadata keep the note as `full_note` and the patient fields as given
      ("" for a missing key, the string form of the age); the scans see them as
      present, with the note's patient id and full note. */
  lemma MetadataFacts(n: RawNote, content: string, fields: NoteFields)
    ensures var m := NoteMetadata(n, content, fields);
      var r := AsRecord(Document(content, m));
      && m["full_note"] == content
      && (n.patientId.Some? ==> m["patient_id"] == n.patientId.value)
      && (n.patientId.None? ==> m["patient_id"] == "")
      && (n.name.Some? ==> m["name"] == n.name.value)
      && (n.name.None? ==> m["name"] == "")
      && m["age"] == AgeString(n.age)
      && m["diagnosis"] == DiagnosisKey(fields.diagnosis)
      && m["treatment"] == fields.treatment && m["followup"] == fields.followup
      && HasMetadata(r)
      && PatientId(r) == OrEmpty(n.patientId)
      && Meta(r, "full_note", "") == content
  {
    assert "patient_id" in NoteMetadata(n, content, fields);
  }

  /** The stored diagnosis is lower case and, when not empty, occurs in the
      lower-cased note. */
  lemma DiagnosisStored(content: string)
    ensures var key := DiagnosisKey(ExtractField(content, "Diagnosis"));
      && Lower(key) == key
      && (key != "" ==> Contains(Lower(content), key))
  {
    var diagnosis := ExtractField(content, "Diagnosis");
    ExtractFieldShape(content, "Diagnosis");
    LowerIdempotent(diagnosis);
    if diagnosis != "" {
      LowerKeepsContains(content, diagnosis);
    }
  }

  /** Lowering both sides keeps an occurrence. */
  lemma LowerKeepsContains(hay: string, needle: string)
    requires Contains(hay, needle)
    ensures Contains(Lower(hay), Lower(needle))
  {
    ContainsIff(hay, needle);
    var i :| OccursAt(hay, needle, i);
    assert Lower(hay)[i..i + |needle|] == Lower(needle);
    assert OccursAt(Lower(hay), Lower(needle), i);
    ContainsIff(Lower(hay), Lower(needle));
  }

  /** The documents are those of the notes that are not blank, in order: one per
      such note, none for a blank one. */
  lemma ConvertedNotes(notes: seq<RawNote>, i: nat)
    requires i < |notes|
    ensures !Blank(notes[i]) <==> exists k :: 0 <= k < |Kept(notes)| && Kept(notes)[k] == i
    ensures Blank(notes[i]) <==> Strip(OrEmpty(notes[i].note)) == ""
  {
    StripEmptyIff(OrEmpty(notes[i].note));
    KeptUpToSound(notes, |notes|);
    KeptUpToComplete(notes, |notes|);
    if !Blank(notes[i]) {
      var k :| 0 <= k < |Kept(notes)| && Kept(notes)[k] == i;
    }
  }
}
