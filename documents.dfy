/** The document record of the analyzer page, the category classifier and
    intake: turning a batch of picked files into new registry entries. */
module Documents {

  datatype Option<+T> = None | Some(value: T)

  datatype Category = Scientific | General

  datatype Status = Uploading | Processing | Completed | Error

  datatype Language = En | Es

  /** The generated summary. Its wording is a language-dependent template over
      the document's name and category, so the model keeps only what the text
      is made from. */
  datatype Summary = GeneratedSummary(language: Language, documentName: string, category: Category)

  /** A registry entry. `size` and `progress` are optional in the page's type,
      but intake is the only place that creates entries and it always sets
      both, so they are plain values here. */
  datatype Document = Document(
    id: string,
    name: string,
    category: Category,
    status: Status,
    summary: Option<Summary>,
    uploadTime: int,
    size: string,
    progress: int)

  /** A picked file as intake sees it: its name, and the size label that the
      page formats from the byte count. */
  datatype FileEntry = FileEntry(name: string, sizeLabel: string)

  // ---------------------------------------------------------------------------
  // Lower-casing and substring search

  function LowerChar(c: char): char
  {
    if 'A' <= c <= 'Z' then (c as int + 32) as char else c
  }

  function Lower(s: string): (r: string)
    ensures |r| == |s|
    ensures forall i :: 0 <= i < |s| ==> r[i] == LowerChar(s[i])
  {
    if s == [] then [] else [LowerChar(s[0])] + Lower(s[1..])
  }

  /** `s.includes(p)`: does `p` occur in `s` starting at some position? */
  predicate Contains(s: string, p: string)
    decreases |s|
  {
    |p| <= |s| && (s[..|p|] == p || Contains(s[1..], p))
  }

  /** `p` occurs in `s` at position `i`. */
  ghost predicate OccursAt(s: string, p: string, i: int)
  {
    0 <= i && i + |p| <= |s| && s[i..i + |p|] == p
  }

  /** `p` occurs somewhere in `s`. */
  ghost predicate Mentions(s: string, p: string)
  {
    exists i :: OccursAt(s, p, i)
  }

  /** An occurrence at a known position is found by Contains. */
  lemma {:induction false} OccursContains(s: string, p: string, i: int)
    requires OccursAt(s, p, i)
    ensures Contains(s, p)
    decreases i
  {
    if i == 0 {
      assert s[..|p|] == s[0..|p|];
    } else {
      assert s[1..][i - 1..i - 1 + |p|] == s[i..i + |p|];
      OccursContains(s[1..], p, i - 1);
    }
  }

  /** Contains finds only real occurrences. */
  lemma {:induction false} ContainsOccurs(s: string, p: string) returns (i: int)
    requires Contains(s, p)
    ensures OccursAt(s, p, i)
    decreases |s|
  {
    if s[..|p|] == p {
      i := 0;
    } else {
      var j := ContainsOccurs(s[1..], p);
      assert s[j + 1..j + 1 + |p|] == s[1..][j..j + |p|];
      i := j + 1;
    }
  }

  /** Contains agrees with the direct definition of a substring occurrence. */
  lemma ContainsIff(s: string, p: string)
    ensures Contains(s, p) <==> Mentions(s, p)
  {
    if Contains(s, p) {
      var i := ContainsOccurs(s, p);
    }
    forall i | OccursAt(s, p, i) ensures Contains(s, p) {
      OccursContains(s, p, i);
    }
  }

  /** Lower-casing twice is lower-casing once. */
  lemma LowerIdempotent(s: string)
    ensures Lower(Lower(s)) == Lower(s)
  {
    assert forall i :: 0 <= i < |s| ==> Lower(Lower(s))[i] == Lower(s)[i];
  }

  // ---------------------------------------------------------------------------
  // Classifier

  /** A name is scientific when, lower-cased, it mentions "research" or "study". */
  function Classify(name: string): Category
  {
    if Contains(Lower(name), "research") || Contains(Lower(name), "study")
    then Scientific else General
  }

  /** The classifier in terms of occurrences: scientific exactly when
      "research" or "study" occurs somewhere in the lower-cased name, and
      general in every other case. */
  lemma ClassifyIff(name: string)
    ensures Classify(name) == Scientific <==>
      Mentions(Lower(name), "research") || Mentions(Lower(name), "study")
    ensures Classify(name) == General <==>
      !Mentions(Lower(name), "research") && !Mentions(Lower(name), "study")
  {
    ContainsIff(Lower(name), "research");
    ContainsIff(Lower(name), "study");
  }

  /** The classifier ignores letter case. */
  lemma ClassifyIgnoresCase(name: string)
    ensures Classify(Lower(name)) == Classify(name)
  {
    LowerIdempotent(name);
  }

  /** A keyword anywhere in the name, in any case, makes it scientific. */
  lemma ClassifyKeywordAnywhere(prefix: string, keyword: string, suffix: string)
    requires Lower(keyword) == "research" || Lower(keyword) == "study"
    ensures Classify(prefix + keyword + suffix) == Scientific
  {
    var name := prefix + keyword + suffix;
    var k := |prefix|;
    assert Lower(name)[k..k + |keyword|] == Lower(keyword);
    assert OccursAt(Lower(name), Lower(keyword), k);
    ClassifyIff(name);
  }

  lemma ClassifyResearchNotes()
    ensures Classify("research_notes.pdf") == Scientific
  {
    assert "research_notes.pdf" == "" + "research" + "_notes.pdf";
    ClassifyKeywordAnywhere("", "research", "_notes.pdf");
  }

  lemma ClassifyCaseStudy()
    ensures Classify("Case_Study.DOCX") == Scientific
  {
    assert "Case_Study.DOCX" == "Case_" + "Study" + ".DOCX";
    ClassifyKeywordAnywhere("Case_", "Study", ".DOCX");
  }

  /** A pattern with a character the text lacks occurs nowhere in it. */
  lemma AbsentCharNoOccurrence(s: string, p: string, k: int, i: int)
    requires 0 <= k < |p| && p[k] !in s
    ensures !OccursAt(s, p, i)
  {
    if 0 <= i && i + |p| <= |s| {
      assert s[i..i + |p|][k] == s[i + k];
    }
  }

  /** Nor does Contains find it. */
  lemma AbsentCharNotContained(s: string, p: string, k: int)
    requires 0 <= k < |p| && p[k] !in s
    ensures !Contains(s, p)
  {
    ContainsIff(s, p);
    forall i ensures !OccursAt(s, p, i) {
      AbsentCharNoOccurrence(s, p, k, i);
    }
  }

  /** A name with no letter s in either case is general. */
  lemma ClassifyWithoutS(name: string)
    requires 's' !in name && 'S' !in name
    ensures Classify(name) == General
  {
    var low := Lower(name);
    forall i | 0 <= i < |low| ensures low[i] != 's' {
      assert name[i] != 's' && name[i] != 'S';
    }
    AbsentCharNotContained(low, "research", 2);
    AbsentCharNotContained(low, "study", 0);
  }

  lemma ClassifyReport()
    ensures Classify("report.pdf") == General
  {
    ClassifyWithoutS("report.pdf");
  }

  // ---------------------------------------------------------------------------
  // Intake

  /** The record created for one picked file. */
  function NewDocument(file: FileEntry, id: string, time: int): Document
  {
    Document(id, file.name, Classify(file.name), Uploading, None, time, file.sizeLabel, 0)
  }

  /** One record per file, in the order of the files; the id and the upload
      time of each come from the page's random id generator and the clock. */
  function NewDocuments(files: seq<FileEntry>, ids: seq<string>, times: seq<int>): (r: seq<Document>)
    requires |ids| == |files| && |times| == |files|
    ensures |r| == |files|
    ensures forall i :: 0 <= i < |files| ==>
      && r[i].id == ids[i]
      && r[i].name == files[i].name
      && r[i].category == Classify(files[i].name)
      && r[i].status == Uploading
      && r[i].progress == 0
      && r[i].summary == None
      && r[i].uploadTime == times[i]
      && r[i].size == files[i].sizeLabel
  {
    if files == [] then []
    else [NewDocument(files[0], ids[0], times[0])] + NewDocuments(files[1..], ids[1..], times[1..])
  }

  /** The registry after intake: the existing entries followed by the new ones. */
  function Intake(docs: seq<Document>, files: seq<FileEntry>, ids: seq<string>, times: seq<int>): (r: seq<Document>)
    requires |ids| == |files| && |times| == |files|
    ensures |r| == |docs| + |files|
    ensures forall i :: 0 <= i < |docs| ==> r[i] == docs[i]
    ensures forall i :: 0 <= i < |files| ==> r[|docs| + i] == NewDocument(files[i], ids[i], times[i])
  {
    docs + NewDocuments(files, ids, times)
  }

  /** Intake of two batches in a row is intake of the concatenated batch. */
  lemma {:induction false} IntakeBatches(docs: seq<Document>,
                                        f1: seq<FileEntry>, i1: seq<string>, t1: seq<int>,
                                        f2: seq<FileEntry>, i2: seq<string>, t2: seq<int>)
    requires |i1| == |f1| && |t1| == |f1|
    requires |i2| == |f2| && |t2| == |f2|
    ensures Intake(Intake(docs, f1, i1, t1), f2, i2, t2) == Intake(docs, f1 + f2, i1 + i2, t1 + t2)
  {
    var a := Intake(Intake(docs, f1, i1, t1), f2, i2, t2);
    var b := Intake(docs, f1 + f2, i1 + i2, t1 + t2);
    forall k | 0 <= k < |a| ensures a[k] == b[k] {
      if k < |docs| + |f1| {
        assert Intake(docs, f1, i1, t1)[k] == a[k];
      } else {
        var j := k - |docs| - |f1|;
        assert a[|docs| + |f1| + j] == NewDocument(f2[j], i2[j], t2[j]);
        assert (f1 + f2)[|f1| + j] == f2[j];
        assert (i1 + i2)[|f1| + j] == i2[j];
        assert (t1 + t2)[|f1| + j] == t2[j];
      }
    }
  }
}
