/** The derivation stage of `load_data` (streamlit_app.py:70-157): every
    record of the admissions table gains the parsed offer fields, the two
    categories, the five group flags and, when the table has no outcome
    column, an inferred outcome. Column-wise pandas assignments are modelled
    as one pass over the records that derives each row in full. */
module Loader {
  import opened Wrappers
  import opened Text
  import opened OfferParser
  import opened Classifier

  /** One record as read from the file. Numeric cells are `None` when
      missing or not numeric; the grade is kept as an ordered integer. */
  datatype Record = Record(
    year: Option<int>,          // 졸업년도
    middleSchool: Option<string>, // 출신중
    highGrade: Option<int>,     // 고교내신
    offer: Option<string>,      // 주요합격
    outcome: Option<string>)    // 합격여부, when the file has that column

  /** Which optional columns the file has. */
  datatype Columns = Columns(year: bool, middleSchool: bool, highGrade: bool, offer: bool, outcome: bool)

  /** A record together with every column `load_data` derives from it. */
  datatype Row = Row(
    record: Record,
    university: Option<string>,   // 대표대학
    trackLabel: Option<string>,   // 전형유형원문
    department: Option<string>,   // 대표학과
    trackCategory: string,        // 전형대분류
    majorGroup: string,           // 학과계열
    capitalRegion: bool,          // 수도권대학
    national: bool,               // 국립대학
    teachersCollege: bool,        // 교대
    medical: bool,                // 의치약한수
    nursing: bool,                // 간호
    outcome: Option<string>)      // 합격여부

  datatype Table = Table(columns: Columns, rows: seq<Row>)

  /** Why `load_data` fails with a KeyError. */
  datatype LoadError =
    | MissingOfferColumn  // line 155 reads the offer column to infer outcomes
    | NoParsedColumns     // line 92: an empty offer column parses to no columns

  const Admitted: string := "합격"
  const Unknown: string := "미상"

  /** The outcome inferred at lines 154-157: admitted exactly when the offer
      cell is a string with a non-whitespace character. */
  function InferOutcome(offer: Option<string>): (r: string)
    ensures r == Admitted || r == Unknown
    ensures r == Admitted <==> offer.Some? && !IsBlank(offer.value)
  {
    if offer.Some? && Strip(offer.value) != [] then Admitted else Unknown
  }

  /** The inferred outcome and the parser agree: an offer counts as an
      admission exactly when it names a university. */
  lemma OutcomeAgreesWithParse(offer: Option<string>)
    ensures InferOutcome(offer) == Admitted <==> ParseOffer(offer).university.Some?
  {
  }

  /** The parsed fields when the file has the offer column, else the
      all-`None` fields of lines 74-76. */
  function OfferOf(columns: Columns, rec: Record): (o: Offer)
    ensures o.university.None? ==> o == NoOffer
    ensures o.university.Some? <==> columns.offer && rec.offer.Some? && !IsBlank(rec.offer.value)
    ensures o.university.Some? ==> o.trackLabel.Some?
  {
    if columns.offer then ParseOffer(rec.offer) else NoOffer
  }

  /** The row `load_data` derives from one record. Outcomes are inferred
      only when the file has no outcome column, and then the offer column
      must exist. */
  function Derive(columns: Columns, rec: Record): (r: Row)
    requires columns.offer || columns.outcome
    ensures r.record == rec
    ensures columns.outcome ==> r.outcome == rec.outcome
    ensures !columns.outcome ==> r.outcome.Some? && (r.outcome.value == Admitted <==> r.university.Some?)
  {
    var o := OfferOf(columns, rec);
    Row(rec, o.university, o.trackLabel, o.department,
      ClassifyType(o.trackLabel), ClassifyMajorGroup(o.department),
      IsCapitalRegion(o.university), IsNational(o.university), IsTeachersCollege(o.university),
      IsMedMajor(o.department), IsNursingMajor(o.department),
      if columns.outcome then rec.outcome else Some(InferOutcome(rec.offer)))
  }

  /** What holds of every derived row, whatever the record. */
  predicate Consistent(columns: Columns, row: Row) {
    && (row.trackCategory in TrackKeywords || row.trackCategory == Other)
    && (row.majorGroup in MajorGroups || row.majorGroup == Other)
    // no university: nothing was parsed and no university flag is set
    && (row.university.None? ==>
          row.trackLabel.None? && row.department.None?
          && !row.capitalRegion && !row.national && !row.teachersCollege)
    && (row.university.Some? ==> row.trackLabel.Some? && '(' !in row.university.value)
    && (row.trackLabel.None? ==> row.trackCategory == Other)
    && (row.department.None? ==> row.majorGroup == Other && !row.medical && !row.nursing)
    // the nursing flag implies the medical group, which implies a flag
    && (row.nursing ==> row.majorGroup == MedicalGroup)
    && (row.majorGroup == MedicalGroup ==> row.medical || row.nursing)
    && (row.teachersCollege ==> !row.capitalRegion && !row.national)
    // an inferred outcome says whether a university was parsed
    && (!columns.outcome ==>
          row.outcome.Some? && (row.outcome.value == Admitted <==> row.university.Some?))
  }

  /** Every derived row is consistent and carries its record. */
  lemma DeriveConsistent(columns: Columns, rec: Record)
    requires columns.offer || columns.outcome
    ensures Consistent(columns, Derive(columns, rec))
    ensures Derive(columns, rec).record == rec
  {
    var o := OfferOf(columns, rec);
    var row := Derive(columns, rec);
    if columns.offer {
      ParsedFieldsClean(rec.offer);
    }
    if row.nursing {
      NursingIsMedicalGroup(o.department);
    }
    if row.majorGroup == MedicalGroup {
      MedicalGroupIsFlagged(o.department);
    }
    if row.teachersCollege {
      TeachersCollegeExclusive(o.university);
    }
  }

  /** A blank or missing offer yields a row with nothing parsed, no flag,
      both categories 기타 and, when inferred, the outcome 미상. */
  lemma BlankOfferRow(columns: Columns, rec: Record)
    requires columns.offer || columns.outcome
    requires rec.offer.None? || IsBlank(rec.offer.value)
    ensures var row := Derive(columns, rec);
      && row.university.None? && row.trackLabel.None? && row.department.None?
      && row.trackCategory == Other && row.majorGroup == Other
      && !row.capitalRegion && !row.national && !row.teachersCollege && !row.medical && !row.nursing
      && (!columns.outcome ==> row.outcome == Some(Unknown))
  {
  }

  /** Nothing after the first comma reaches the row, whatever the first
      offer is, blank ones included: two cells that agree up to their first
      comma derive the same row. */
  lemma DeriveIgnoresLaterOffers(columns: Columns, rec: Record, first: string, others: string, others': string)
    requires columns.offer || columns.outcome
    requires ',' !in first
    ensures var text, text' := first + "," + others, first + "," + others';
      Derive(columns, rec.(offer := Some(text))) == Derive(columns, rec.(offer := Some(text'))).(record := rec.(offer := Some(text)))
  {
    var text, text' := first + "," + others, first + "," + others';
    assert ParseOffer(Some(text)) == ParseOffer(Some(text')) by {
      FirstOfferOnly(first, others);
      FirstOfferOnly(first, others');
    }
    assert InferOutcome(Some(text)) == InferOutcome(Some(text')) by {
      FirstEntryBeforeComma(first, others);
      FirstEntryBeforeComma(first, others');
    }
    DeriveFromOffer(columns, rec, Some(text'), Some(text));
  }

  /** Nothing after the first comma of an offer whose first entry is
      non-blank reaches the row: it is the row of that first entry alone. */
  lemma DeriveUsesFirstEntryOnly(columns: Columns, rec: Record, first: string, others: string)
    requires columns.offer
    requires ',' !in first && !IsBlank(first)
    ensures Derive(columns, rec.(offer := Some(first + "," + others)))
         == Derive(columns, rec.(offer := Some(first))).(record := rec.(offer := Some(first + "," + others)))
  {
    var text := first + "," + others;
    assert ParseOffer(Some(text)) == ParseOffer(Some(first)) by {
      FirstOfferOnly(first, others);
    }
    assert InferOutcome(Some(text)) == InferOutcome(Some(first)) by {
      FirstEntryBeforeComma(first, others);
    }
    DeriveFromOffer(columns, rec, Some(first), Some(text));
  }

  /** A row depends on the offer cell only through its parse and its
      inferred outcome. */
  lemma DeriveFromOffer(columns: Columns, rec: Record, offer: Option<string>, offer': Option<string>)
    requires columns.offer || columns.outcome
    requires ParseOffer(offer') == ParseOffer(offer)
    requires InferOutcome(offer') == InferOutcome(offer)
    ensures Derive(columns, rec.(offer := offer')) == Derive(columns, rec.(offer := offer)).(record := rec.(offer := offer'))
  {
    assert OfferOf(columns, rec.(offer := offer')) == OfferOf(columns, rec.(offer := offer));
  }

  /** `rows` holds, in order, the row derived from each record. */
  predicate DerivedFrom(columns: Columns, records: seq<Record>, rows: seq<Row>)
    requires columns.offer || columns.outcome
  {
    DerivedUpTo(columns, records, rows, |records|)
  }

  /** The first `n` rows are derived from the first `n` records. */
  predicate DerivedUpTo(columns: Columns, records: seq<Record>, rows: seq<Row>, n: nat)
    requires columns.offer || columns.outcome
  {
    |rows| == n <= |records| && forall k :: 0 <= k < n ==> rows[k] == Derive(columns, records[k])
  }

  /** Deriving one more record extends the derived rows by its row. */
  lemma DerivedUpToSnoc(columns: Columns, records: seq<Record>, rows: seq<Row>, n: nat)
    requires columns.offer || columns.outcome
    requires n < |records| && DerivedUpTo(columns, records, rows, n)
    ensures DerivedUpTo(columns, records, rows + [Derive(columns, records[n])], n + 1)
  {
    var rows' := rows + [Derive(columns, records[n])];
    forall k | 0 <= k < n
      ensures rows'[k] == Derive(columns, records[k])
    {
      assert rows'[k] == rows[k];
    }
  }

  /** `load_data` from the record list on: every row is derived from its
      record, and the outcome column is present afterwards. An offer column
      without records, or a file with neither offer nor outcome column,
      fails. */
  method LoadTable(columns: Columns, records: seq<Record>) returns (r: Result<Table, LoadError>)
    ensures r == Err(NoParsedColumns) <==> columns.offer && records == []
    ensures r == Err(MissingOfferColumn) <==> !columns.offer && !columns.outcome
    ensures r.Ok? ==> r.value.columns == columns.(outcome := true)
    ensures r.Ok? ==> DerivedFrom(columns, records, r.value.rows)
  {
    if columns.offer && records == [] {
      return Err(NoParsedColumns);
    }
    if !columns.offer && !columns.outcome {
      return Err(MissingOfferColumn);
    }
    var rows: seq<Row> := [];
    for i := 0 to |records|
      invariant DerivedUpTo(columns, records, rows, i)
    {
      var row := Derive(columns, records[i]);
      DerivedUpToSnoc(columns, records, rows, i);
      rows := rows + [row];
    }
    r := Ok(Table(columns.(outcome := true), rows));
  }

  /** Every row of a loaded table is consistent, and its record is the one
      it was derived from. */
  lemma LoadedRowsConsistent(columns: Columns, records: seq<Record>, t: Table)
    requires columns.offer || columns.outcome
    requires DerivedFrom(columns, records, t.rows)
    ensures forall i :: 0 <= i < |records| ==> Consistent(columns, t.rows[i]) && t.rows[i].record == records[i]
  {
    forall i | 0 <= i < |records|
      ensures Consistent(columns, t.rows[i]) && t.rows[i].record == records[i]
    {
      DeriveConsistent(columns, records[i]);
    }
  }
}
