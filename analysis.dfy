/** The start-analysis button's enable test and the analysis step that turns a
    registry snapshot into the analysis result. */
module Analysis {
  import opened Documents
  import opened Registry

  /** The file name the analysis result offers as its consolidated report. */
  const ConsolidatedPdf: string := "documento-consolidado.pdf"

  datatype AnalysisResult = AnalysisResult(documents: seq<Document>, consolidatedPdf: Option<string>)

  /** Some entry is still uploading. */
  predicate AnyUploading(docs: seq<Document>)
  {
    exists d :: d in docs && d.status == Uploading
  }

  /** The button is enabled unless an analysis is running, the registry is
      empty, or some entry is still uploading. */
  predicate CanAnalyze(isAnalyzing: bool, docs: seq<Document>)
  {
    !(isAnalyzing || |docs| == 0 || AnyUploading(docs))
  }

  /** The enable test over positions: no analysis is running, the registry is
      non-empty, and the entry at no index is uploading. */
  lemma CanAnalyzeIff(isAnalyzing: bool, docs: seq<Document>)
    ensures CanAnalyze(isAnalyzing, docs) <==>
      !isAnalyzing && |docs| > 0 && forall i :: 0 <= i < |docs| ==> docs[i].status != Uploading
  {
    if AnyUploading(docs) {
      var d :| d in docs && d.status == Uploading;
    }
  }

  /** One snapshot entry as the analysis returns it: completed and summarised,
      everything else as it was. */
  function AnalyzeEntry(d: Document, language: Language): Document
  {
    d.(status := Completed, summary := Some(GeneratedSummary(language, d.name, d.category)))
  }

  function AnalyzeAll(snapshot: seq<Document>, language: Language): (r: seq<Document>)
    ensures |r| == |snapshot|
    ensures forall i :: 0 <= i < |snapshot| ==>
      && r[i].status == Completed
      && r[i].summary == Some(GeneratedSummary(language, snapshot[i].name, snapshot[i].category))
      && r[i].(status := snapshot[i].status, summary := snapshot[i].summary) == snapshot[i]
  {
    if snapshot == [] then [] else [AnalyzeEntry(snapshot[0], language)] + AnalyzeAll(snapshot[1..], language)
  }

  /** The result the analysis step records for a snapshot of the registry: one
      completed, summarised entry per snapshot entry, in the same order, with
      the consolidated report set. */
  function Analyze(snapshot: seq<Document>, language: Language): (r: AnalysisResult)
    ensures |r.documents| == |snapshot|
    ensures Ids(r.documents) == Ids(snapshot)
    ensures forall i :: 0 <= i < |snapshot| ==>
      && r.documents[i].status == Completed
      && r.documents[i].summary.Some?
      && r.documents[i].summary.value.documentName == snapshot[i].name
      && r.documents[i].id == snapshot[i].id
      && r.documents[i].name == snapshot[i].name
      && r.documents[i].category == snapshot[i].category
      && r.documents[i].uploadTime == snapshot[i].uploadTime
      && r.documents[i].size == snapshot[i].size
      && r.documents[i].progress == snapshot[i].progress
    ensures r.consolidatedPdf == Some(ConsolidatedPdf)
  {
    var docs := AnalyzeAll(snapshot, language);
    assert forall i :: 0 <= i < |snapshot| ==> Ids(docs)[i] == Ids(snapshot)[i];
    AnalysisResult(docs, Some(ConsolidatedPdf))
  }

  /** Analysing an analysed snapshot again, in the same language, yields the
      same documents. */
  lemma AnalyzeIdempotent(snapshot: seq<Document>, language: Language)
    ensures Analyze(Analyze(snapshot, language).documents, language) == Analyze(snapshot, language)
  {
    var once := Analyze(snapshot, language).documents;
    var twice := Analyze(once, language).documents;
    assert forall i :: 0 <= i < |snapshot| ==> twice[i] == once[i];
  }

  /** Removal and analysis commute: analysing without an entry is analysing
      with it and dropping it from the result. */
  lemma {:induction false} AnalyzeRemove(snapshot: seq<Document>, language: Language, id: string)
    ensures Analyze(Remove(snapshot, id), language).documents == Remove(Analyze(snapshot, language).documents, id)
  {
    if snapshot != [] {
      AnalyzeRemove(snapshot[1..], language, id);
      var all := AnalyzeAll(snapshot, language);
      assert all == [AnalyzeEntry(snapshot[0], language)] + AnalyzeAll(snapshot[1..], language);
    }
  }

  // ---------------------------------------------------------------------------
  // When the button is enabled

  /** A batch of at least one file disables the button until the new entries
      leave the uploading state. */
  lemma IntakeDisablesAnalysis(isAnalyzing: bool, docs: seq<Document>,
                               files: seq<FileEntry>, ids: seq<string>, times: seq<int>)
    requires |ids| == |files| && |times| == |files|
    requires |files| > 0
    ensures !CanAnalyze(isAnalyzing, Intake(docs, files, ids, times))
  {
    var r := Intake(docs, files, ids, times);
    assert r[|docs|] in r;
  }

  /** A registry holding one freshly added document becomes analysable after
      exactly ten progress ticks: after nine it is still uploading. */
  lemma TenTicksEnableAnalysis(file: FileEntry, id: string, time: int)
    ensures !CanAnalyze(false, Ticks([NewDocument(file, id, time)], id, 9))
    ensures CanAnalyze(false, Ticks([NewDocument(file, id, time)], id, 10))
  {
    var docs := [NewDocument(file, id, time)];
    TicksFromFresh(docs, id, 9, 0);
    TicksFromFresh(docs, id, 10, 0);
    var nine := Ticks(docs, id, 9);
    var ten := Ticks(docs, id, 10);
    assert nine[0] in nine;
    assert ten == [ten[0]];
  }
}
