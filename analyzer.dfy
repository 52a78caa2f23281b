/** The analyzer page's state and the handlers that update it. Each handler
    applies one of the pure patches to the registry as it stands; the values a
    timer callback captured when it was scheduled are passed to it
    explicitly. */
module Analyzer {
  import opened Documents
  import opened Registry
  import opened Analysis

  datatype Tab = UploadTab | AnalysisTab

  /** What the pending analysis timer captured when the button was pressed:
      the registry and the language of that moment. */
  datatype AnalysisRequest = AnalysisRequest(snapshot: seq<Document>, language: Language)

  class DocumentAnalyzer {
    var documents: seq<Document>
    var isAnalyzing: bool
    var analysisResult: Option<AnalysisResult>
    var activeTab: Tab
    var language: Language

    /** The page's initial state. */
    constructor ()
      ensures documents == [] && !isAnalyzing && analysisResult.None?
      ensures activeTab == UploadTab && language == En
    {
      documents := [];
      isAnalyzing := false;
      analysisResult := None;
      activeTab := UploadTab;
      language := En;
    }

    /** Intake of a batch of files. Returns the registry the handler's closure
        holds, which every progress timer of this batch captures. */
    method HandleFiles(files: seq<FileEntry>, ids: seq<string>, times: seq<int>) returns (snapshot: seq<Document>)
      requires |ids| == |files| && |times| == |files|
      modifies this
      ensures documents == Intake(old(documents), files, ids, times)
      ensures snapshot == old(documents)
      ensures isAnalyzing == old(isAnalyzing) && analysisResult == old(analysisResult)
      ensures activeTab == old(activeTab) && language == old(language)
    {
      snapshot := documents;
      documents := Intake(documents, files, ids, times);
    }

    /** One firing of the progress timer of document `id`. The tick is applied
        to the current registry; the returned flag is the timer's stop test,
        evaluated on the captured `snapshot`, and says whether the interval is
        cleared and the completion step scheduled. */
    method ProgressTick(id: string, snapshot: seq<Document>) returns (stop: bool)
      modifies this
      ensures documents == Tick(old(documents), id)
      ensures stop == CompletionGuard(snapshot, id)
      ensures isAnalyzing == old(isAnalyzing) && analysisResult == old(analysisResult)
      ensures activeTab == old(activeTab) && language == old(language)
    {
      documents := Tick(documents, id);
      stop := CompletionGuard(snapshot, id);
    }

    /** The progress timer of document `id` run for at most `limit` firings.
        Because its stop test reads the captured snapshot, which no firing
        changes, it either stops at its first firing or never. */
    method RunProgressTimer(id: string, snapshot: seq<Document>, limit: nat) returns (fired: nat, stopped: bool)
      modifies this
      ensures documents == Ticks(old(documents), id, fired)
      ensures stopped <==> limit > 0 && CompletionGuard(snapshot, id)
      ensures fired == if stopped then 1 else limit
      ensures isAnalyzing == old(isAnalyzing) && analysisResult == old(analysisResult)
      ensures activeTab == old(activeTab) && language == old(language)
    {
      fired, stopped := 0, false;
      while fired < limit && !stopped
        invariant fired <= limit
        invariant documents == Ticks(old(documents), id, fired)
        invariant stopped <==> fired > 0 && CompletionGuard(snapshot, id)
        invariant stopped ==> fired == 1
        invariant isAnalyzing == old(isAnalyzing) && analysisResult == old(analysisResult)
        invariant activeTab == old(activeTab) && language == old(language)
      {
        TicksThenTick(old(documents), id, fired);
        stopped := ProgressTick(id, snapshot);
        fired := fired + 1;
      }
    }

    /** The delayed completion step for document `id`. */
    method CompleteDocument(id: string)
      modifies this
      ensures documents == Complete(old(documents), id)
      ensures isAnalyzing == old(isAnalyzing) && analysisResult == old(analysisResult)
      ensures activeTab == old(activeTab) && language == old(language)
    {
      documents := Complete(documents, id);
    }

    /** The remove button of a document card. */
    method RemoveDocument(id: string)
      modifies this
      ensures documents == Remove(old(documents), id)
      ensures isAnalyzing == old(isAnalyzing) && analysisResult == old(analysisResult)
      ensures activeTab == old(activeTab) && language == old(language)
    {
      documents := Remove(documents, id);
    }

    /** The start-analysis click: marks the page busy, switches to the analysis
        tab and captures what the delayed analysis step will read. The button
        accepts the click only while its enable test holds. */
    method AnalyzeDocuments() returns (request: AnalysisRequest)
      requires CanAnalyze(isAnalyzing, documents)
      modifies this
      ensures isAnalyzing && activeTab == AnalysisTab
      ensures request == AnalysisRequest(old(documents), old(language))
      ensures documents == old(documents) && analysisResult == old(analysisResult) && language == old(language)
    {
      isAnalyzing := true;
      activeTab := AnalysisTab;
      request := AnalysisRequest(documents, language);
    }

    /** The delayed analysis step: records the result for the captured
        snapshot and clears the busy flag. The registry itself is left as it
        is. */
    method FinishAnalysis(request: AnalysisRequest)
      modifies this
      ensures analysisResult == Some(Analyze(request.snapshot, request.language))
      ensures !isAnalyzing
      ensures documents == old(documents) && activeTab == old(activeTab) && language == old(language)
    {
      analysisResult := Some(Analyze(request.snapshot, request.language));
      isAnalyzing := false;
    }

    /** The language switch. */
    method SetLanguage(lang: Language)
      modifies this
      ensures language == lang
      ensures documents == old(documents) && isAnalyzing == old(isAnalyzing)
      ensures analysisResult == old(analysisResult) && activeTab == old(activeTab)
    {
      language := lang;
    }
  }

  /** A file added under an id the registry does not hold: its progress timer
      never stops, and after `limit` firings the entry has the progress and
      status of that many ticks (from the tenth on processing, never
      completed) while every other entry is as it was. */
  method FreshDocumentNeverCompletes(a: DocumentAnalyzer, file: FileEntry, id: string, time: int, limit: nat)
    returns (stopped: bool)
    requires id !in Ids(a.documents)
    modifies a
    ensures !stopped
    ensures a.documents == old(a.documents) + [AfterTicks(NewDocument(file, id, time), limit)]
  {
    var snapshot := a.HandleFiles([file], [id], [time]);
    CompletionGuardIff(snapshot, id);
    var fired;
    fired, stopped := a.RunProgressTimer(id, snapshot, limit);
    assert Intake(snapshot, [file], [id], [time]) == snapshot + [NewDocument(file, id, time)];
    FreshEntryTicks(snapshot, NewDocument(file, id, time), limit);
  }
}
