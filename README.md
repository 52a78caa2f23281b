# Document registry of the docu-mind analyzer page

This project models the document registry behind the `DocumentAnalyzer` page
of docu-mind. The page keeps an ordered list of documents. A batch of picked
files is added to it. Each new document is driven by its own progress timer.
The user can remove documents. A start-analysis button turns a snapshot of the
list into an analysis result that has a summary for every document.

The model has four modules:

- `Documents` (`documents.dfy`) holds the document record, the category
  classifier with its substring search, and intake.
- `Registry` (`registry.dfy`) holds the per-document patches: the progress
  tick, the completion step, removal, and the completion guard that the
  progress timer tests.
- `Analysis` (`analysis.dfy`) holds the enable test of the start-analysis
  button and the analysis step.
- `Analyzer` (`analyzer.dfy`) holds the page's mutable state as the class
  `DocumentAnalyzer`. Each handler is a method that applies one of the pure
  patches to the current list.

Two timer callbacks read values captured by their closure rather than the
current state, and the model passes those values in explicitly:

- The progress timer applies its tick to the current list. Its stop test,
  however, looks the document up in the list the page held when the files
  were added. That list predates the new documents. So for a freshly
  generated id the test never fires. The interval is never cleared, and the
  completion step is never scheduled. `RunProgressTimer` proves that the timer
  stops at its first firing or not at all. `FreshDocumentNeverCompletes`
  shows that a fresh document ticks on past 100 and stays `Processing`. The
  completion step is still modelled (`Complete`,
  `DocumentAnalyzer.CompleteDocument`). It is reached only when a new id
  collides with an id in the captured list whose progress is at least 90.
  Ids come from a random generator, and nothing guarantees they are unique.
- The analysis step maps the list and the language captured at click time.
  `AnalyzeDocuments` returns them as an `AnalysisRequest`, and
  `FinishAnalysis` consumes it. The analysis writes its result to
  `analysisResult`. It does not change the registry.

Inputs that come from outside the page's logic are parameters. These are the
ids (random in the page), the upload times (the clock) and each file's size
label (floating-point formatting of the byte count).

## Model

| member | source | states |
|---|---|---|
| `Documents.Contains` | app/page.tsx:190 | the `includes` search; `ContainsIff` gives it its meaning, an occurrence at some position |
| `Documents.ContainsIff` | app/page.tsx:190 | the `includes` test used by the classifier holds exactly when the pattern occurs at some position of the text |
| `Documents.Classify` | app/page.tsx:190 | the category of a file name; `ClassifyIff` states when it is scientific and when general |
| `Documents.ClassifyIff` | app/page.tsx:190 | a name is classified scientific exactly when "research" or "study" occurs in its lower-cased form, and general in every other case |
| `Documents.ClassifyIgnoresCase` | app/page.tsx:190 | the category does not depend on letter case |
| `Documents.ClassifyKeywordAnywhere` | app/page.tsx:190 | a name that contains either keyword, in any case and at any position, is scientific |
| `Documents.ClassifyWithoutS` | app/page.tsx:190 | a name without the letter s in either case is general, since both keywords contain an s |
| `Documents.ClassifyResearchNotes` | app/page.tsx:190 | "research_notes.pdf" is scientific |
| `Documents.ClassifyCaseStudy` | app/page.tsx:190 | "Case_Study.DOCX" is scientific |
| `Documents.ClassifyReport` | app/page.tsx:190 | "report.pdf" is general |
| `Documents.Lower` | app/page.tsx:190 | lower-casing keeps the length and maps each character on its own |
| `Documents.NewDocument` | app/page.tsx:187-195 | the record built for one file; `NewDocuments` and `Intake` state its fields |
| `Documents.NewDocuments` | app/page.tsx:187-195 | one record per file in file order; each has the file's name and size label, the given id and time, the classifier's category, status uploading, progress 0 and no summary |
| `Documents.Intake` | app/page.tsx:197 | the new registry is the old entries, unchanged and in place, followed by one new record per file |
| `Documents.IntakeBatches` | app/page.tsx:197 | adding two batches in a row gives the same registry as adding the concatenated batch |
| `Registry.Ids` | app/page.tsx:28-37 | the ids of the registry, one per entry and in order |
| `Registry.Find` | app/page.tsx:212 | a found entry is a registry entry with the id; `FindFirst` adds that it is the first one and that nothing is found exactly when the id is absent |
| `Registry.FindFirst` | app/page.tsx:212 | the lookup finds nothing exactly when no entry has the id, and otherwise the first entry that has it |
| `Registry.CompletionGuard` | app/page.tsx:212 | the timer's stop test on the captured list; `CompletionGuardIff` states when it holds |
| `Registry.CompletionGuardIff` | app/page.tsx:212 | the timer's stop test holds exactly when the first captured entry with the id has progress at least 90, and never for an id the captured list lacks |
| `Registry.TickEntry` | app/page.tsx:204-208 | a ticked entry gains exactly 10 progress, becomes processing exactly when its pre-tick progress was at least 90 and uploading otherwise, and keeps every other field |
| `Registry.Tick` | app/page.tsx:202-210 | the tick keeps the length and order, ticks every entry with the id and leaves every other entry as it was |
| `Registry.TickAbsentIsNoop` | app/page.tsx:202-210 | a tick for an id that is not registered, for instance a removed one, changes nothing |
| `Registry.TickKeepsIds` | app/page.tsx:202-210 | a tick leaves the ids and their order unchanged |
| `Registry.TickNeverCompletes` | app/page.tsx:206-207 | a ticked entry is never completed afterwards, and its progress strictly increases |
| `Registry.TicksCommute` | app/page.tsx:202-210 | ticks for any two ids give the same registry in either order, so no update is lost |
| `Registry.Ticks` | app/page.tsx:201-210 | a series of timer firings keeps the registry's length; `TicksThenTick` ties it to one firing at a time |
| `Registry.TicksThenTick` | app/page.tsx:201-210 | the timer's firings compose: n + 1 ticks are one tick after n ticks |
| `Registry.TicksFrom` | app/page.tsx:202-210 | an entry with the progress and status of m ticks has those of m + n ticks after n more |
| `Registry.TicksFromFresh` | app/page.tsx:202-210 | after n ticks a new entry has progress 10n with no cap; it is uploading for n below 10 and processing from the tenth tick on |
| `Registry.TicksLeaveOthers` | app/page.tsx:203 | any number of ticks for one id leaves every entry with another id unchanged |
| `Registry.FreshEntryTicks` | app/page.tsx:197-210 | ticking a freshly appended entry with a new id n times changes that entry's progress and status alone |
| `Registry.Complete` | app/page.tsx:215-216 | the completion step keeps the length and order, sets the status of each matching entry to completed with no other field changed, and leaves every other entry unchanged |
| `Registry.CompleteIdempotent` | app/page.tsx:215-216 | completing the same id twice is completing it once |
| `Registry.CompleteAbsentIsNoop` | app/page.tsx:215-216 | completing an id that is not registered changes nothing |
| `Registry.Remove` | app/page.tsx:225 | the survivors are exactly the entries whose id differs, and the registry does not grow |
| `Registry.RemoveAppend` | app/page.tsx:225 | removal filters each part separately and concatenates the results, so the survivors keep their order |
| `Registry.RemoveAbsentIsNoop` | app/page.tsx:225 | removing an id that is not registered changes nothing |
| `Registry.RemoveDropsId` | app/page.tsx:225 | after removal no entry has the id |
| `Registry.RemoveIdempotent` | app/page.tsx:225 | removing the same id a second time changes nothing |
| `Registry.TickAfterRemove` | app/page.tsx:202-225 | a tick that fires after its document was removed is a no-op |
| `Registry.RemoveTickCommute` | app/page.tsx:202-225 | ticking after removal equals removing after ticking |
| `Registry.PatchesKeepUniqueIds` | app/page.tsx:202-216 | tick and completion keep unique ids unique |
| `Registry.RemoveKeepsUniqueIds` | app/page.tsx:225 | removal keeps unique ids unique |
| `Registry.IntakeUniqueIds` | app/page.tsx:186-197 | intake keeps ids unique exactly when the generated ids are distinct from each other and from every registered id |
| `Registry.IntakeUniqueIdsOnlyIf` | app/page.tsx:186-197 | unique ids after intake imply that the generated ids were distinct and new |
| `Registry.IntakeUniqueIdsIf` | app/page.tsx:186-197 | distinct, new generated ids keep the registry's ids unique |
| `Analysis.AnyUploading` | app/page.tsx:669 | some entry is uploading; `CanAnalyzeIff` states it over positions |
| `Analysis.CanAnalyze` | app/page.tsx:669 | the button's enable test; `CanAnalyzeIff`, `IntakeDisablesAnalysis` and `TenTicksEnableAnalysis` state when it holds, and `DocumentAnalyzer.AnalyzeDocuments` requires it |
| `Analysis.CanAnalyzeIff` | app/page.tsx:669 | the button is enabled exactly when no analysis is running, the registry is non-empty and no entry is uploading |
| `Analysis.AnalyzeEntry` | app/page.tsx:233-239 | one analysed entry; `AnalyzeAll` states that it is completed and summarised with every other field kept |
| `Analysis.AnalyzeAll` | app/page.tsx:233-239 | one entry per snapshot entry in order, each completed and summarised from the language, its name and its category, with every other field unchanged |
| `Analysis.Analyze` | app/page.tsx:233-244 | the result has the snapshot's length and ids in order; every entry is completed with a summary and unchanged id, name, category, time, size and progress; the consolidated report name is set |
| `Analysis.AnalyzeIdempotent` | app/page.tsx:233-239 | analysing an analysed list again in the same language gives the same documents |
| `Analysis.AnalyzeRemove` | app/page.tsx:225-239 | analysing without an entry equals analysing with it and removing it from the result |
| `Analysis.IntakeDisablesAnalysis` | app/page.tsx:669 | adding at least one file disables the start-analysis button |
| `Analysis.TenTicksEnableAnalysis` | app/page.tsx:669 | a registry with one new document is still not analysable after nine ticks and becomes analysable after the tenth |
| `Analyzer.DocumentAnalyzer.constructor` | app/page.tsx:152-157 | the page starts with no documents, not analysing, no result, the upload tab and English |
| `Analyzer.DocumentAnalyzer.HandleFiles` | app/page.tsx:186-197 | the registry becomes the intake of the batch into the current list; the list the timers capture is the one before intake; nothing else changes |
| `Analyzer.DocumentAnalyzer.ProgressTick` | app/page.tsx:201-212 | one timer firing ticks the current registry; the stop flag is the guard on the captured list; nothing else changes |
| `Analyzer.DocumentAnalyzer.RunProgressTimer` | app/page.tsx:201-221 | after the firings the registry is that many ticks of the old one; the timer stops exactly when the captured guard holds, and then after one firing; otherwise it fires until the bound |
| `Analyzer.DocumentAnalyzer.CompleteDocument` | app/page.tsx:214-218 | the registry becomes the completion step applied to the current list; nothing else changes |
| `Analyzer.DocumentAnalyzer.RemoveDocument` | app/page.tsx:224-226 | the registry becomes the current list with the id removed; nothing else changes |
| `Analyzer.DocumentAnalyzer.AnalyzeDocuments` | app/page.tsx:228-233 | the click is accepted only while the button's enable test holds; the page is then busy and on the analysis tab, and the request carries the registry and the language at click time |
| `Analyzer.DocumentAnalyzer.FinishAnalysis` | app/page.tsx:232-245 | the result is the analysis of the captured request, the busy flag is clear, and the registry is untouched |
| `Analyzer.DocumentAnalyzer.SetLanguage` | app/page.tsx:497 | the language is the chosen one and nothing else changes |
| `Analyzer.FreshDocumentNeverCompletes` | app/page.tsx:186-221 | a file added under a new id has a timer that never stops; after any number n of firings its entry has progress 10n with no cap and is processing from the tenth on, and every other entry is unchanged |

## Left out

- Rendering, animation, icons, colour helpers, the features modal, the tab buttons, the not-found page and the layout metadata are presentation only.
- The translation table and the wording of the summary text are left out. A summary is modelled as the language, name and category it is built from (`GeneratedSummary`).
- Id generation with `Math.random`, the clock behind `new Date()` and the `toFixed(1)` size label are not computed. Ids, times and size labels are parameters, and `FileEntry` carries the label instead of the byte count.
- Analyzer.DocumentAnalyzer.RunProgressTimer: the real interval repeats until its stop test holds, which for a fresh id never happens; the model bounds the firings by `limit`.
- The delays of the timers (100 ms plus 50 ms per batch position, 500 ms before completion, 4000 ms before the analysis result) are not modelled. Each callback is an explicit operation, so any interleaving of them can be expressed.
- Documents.Lower: JavaScript `toLowerCase` folds all of Unicode; the model folds ASCII `A`-`Z` only.
- The optional `size` and `progress` fields of the page's type are plain values. Intake is the only place that creates records, and it always sets both. So the `undefined + 10` case of the tick never arises.
- The drag-and-drop and file-input handlers only forward a file list. The download link is a DOM side effect. Neither is modelled.
- File-count and size limits, the extension check, remote job submission and polling, and prompt-driven generation do not exist in the code. The limits appear only as a label and as the file input's `accept` attribute.
- The registry snapshot that the handlers capture is taken to be the state when the handler runs. The model does not express React's deferral between a state update and the next render.
