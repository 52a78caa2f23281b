/** The per-document patches the page applies to its registry: the progress
    tick, the completion step, removal, and the completion guard that the
    progress timer evaluates. Every patch is a function of the registry it
    is applied to. */
module Registry {
  import opened Documents

  // ---------------------------------------------------------------------------
  // Ids and lookup

  /** The ids of the registry, in order. */
  function Ids(docs: seq<Document>): (r: seq<string>)
    ensures |r| == |docs|
    ensures forall i :: 0 <= i < |docs| ==> r[i] == docs[i].id
  {
    if docs == [] then [] else [docs[0].id] + Ids(docs[1..])
  }

  /** No two entries share an id. Nothing in the page enforces this. */
  ghost predicate UniqueIds(docs: seq<Document>)
  {
    forall i, j :: 0 <= i < j < |docs| ==> docs[i].id != docs[j].id
  }

  /** `docs.find(d => d.id === id)`: the first entry with that id. */
  function Find(docs: seq<Document>, id: string): (r: Option<Document>)
    ensures r.Some? ==> r.value in docs && r.value.id == id
  {
    if docs == [] then None
    else if docs[0].id == id then Some(docs[0])
    else Find(docs[1..], id)
  }

  /** Entry `k` is the first one with that id. */
  ghost predicate FirstWithId(docs: seq<Document>, id: string, k: int)
  {
    0 <= k < |docs| && docs[k].id == id && forall j :: 0 <= j < k ==> docs[j].id != id
  }

  /** Find yields nothing exactly when no entry has the id, and otherwise the
      first entry that has it. */
  lemma {:induction false} FindFirst(docs: seq<Document>, id: string) returns (k: int)
    ensures Find(docs, id).None? <==> id !in Ids(docs)
    ensures Find(docs, id).Some? ==> FirstWithId(docs, id, k) && Find(docs, id).value == docs[k]
  {
    k := 0;
    if docs != [] {
      assert Ids(docs) == [docs[0].id] + Ids(docs[1..]);
      if docs[0].id != id {
        var j := FindFirst(docs[1..], id);
        k := j + 1;
      }
    }
  }

  /** The test `documents.find(d => d.id === id)?.progress! >= 90` that the
      progress timer uses to decide whether to stop and schedule completion.
      `snapshot` is the registry the timer's closure captured; a missing entry
      compares `undefined >= 90`, which is false. */
  function CompletionGuard(snapshot: seq<Document>, id: string): bool
  {
    match Find(snapshot, id)
    case None => false
    case Some(d) => d.progress >= 90
  }

  /** The guard fires exactly when the first snapshot entry with that id has
      progress of at least 90; for an id the snapshot does not hold it never
      fires. */
  lemma CompletionGuardIff(snapshot: seq<Document>, id: string)
    ensures CompletionGuard(snapshot, id) <==>
      exists k :: FirstWithId(snapshot, id, k) && snapshot[k].progress >= 90
    ensures id !in Ids(snapshot) ==> !CompletionGuard(snapshot, id)
  {
    var k := FindFirst(snapshot, id);
    forall k' | FirstWithId(snapshot, id, k') ensures k' == k || Find(snapshot, id).None? {
    }
  }

  // ---------------------------------------------------------------------------
  // Progress tick

  /** One tick applied to one entry: 10 more progress, and the status that the
      pre-tick progress selects; every other field is kept. */
  function TickEntry(d: Document): (r: Document)
    ensures r.progress == d.progress + 10
    ensures r.status == (if d.progress >= 90 then Processing else Uploading)
    ensures r.(progress := d.progress, status := d.status) == d
  {
    d.(progress := d.progress + 10, status := if d.progress >= 90 then Processing else Uploading)
  }

  /** The tick for `id`, applied to the registry as it stands: the entries
      with that id are ticked, all others are kept, and the length and order
      are unchanged. */
  function Tick(docs: seq<Document>, id: string): (r: seq<Document>)
    ensures |r| == |docs|
    ensures forall i :: 0 <= i < |docs| ==> r[i] == if docs[i].id == id then TickEntry(docs[i]) else docs[i]
  {
    if docs == [] then []
    else [if docs[0].id == id then TickEntry(docs[0]) else docs[0]] + Tick(docs[1..], id)
  }

  /** A tick for an id the registry does not hold, for instance one that was
      removed, changes nothing. */
  lemma TickAbsentIsNoop(docs: seq<Document>, id: string)
    requires id !in Ids(docs)
    ensures Tick(docs, id) == docs
  {
    assert forall i :: 0 <= i < |docs| ==> docs[i].id != id by {
      forall i | 0 <= i < |docs| ensures docs[i].id != id {
        assert Ids(docs)[i] == docs[i].id;
      }
    }
  }

  /** A tick never changes the ids or their order. */
  lemma TickKeepsIds(docs: seq<Document>, id: string)
    ensures Ids(Tick(docs, id)) == Ids(docs)
  {
    var r := Tick(docs, id);
    assert forall i :: 0 <= i < |docs| ==> Ids(r)[i] == Ids(docs)[i];
  }

  /** A tick never makes an entry completed: the tick alone cannot finish a
      document. */
  lemma TickNeverCompletes(docs: seq<Document>, id: string, i: int)
    requires 0 <= i < |docs| && docs[i].id == id
    ensures Tick(docs, id)[i].status != Completed
    ensures Tick(docs, id)[i].progress > docs[i].progress
  {
  }

  /** Ticks commute: the timers of two documents may fire in either order
      without losing an update. */
  lemma {:induction false} TicksCommute(docs: seq<Document>, a: string, b: string)
    ensures Tick(Tick(docs, a), b) == Tick(Tick(docs, b), a)
  {
    if docs != [] {
      TicksCommute(docs[1..], a, b);
      var ta, tb := Tick(docs, a), Tick(docs, b);
      assert ta[1..] == Tick(docs[1..], a);
      assert tb[1..] == Tick(docs[1..], b);
      assert Tick(ta, b) == [Tick(ta, b)[0]] + Tick(ta[1..], b);
      assert Tick(tb, a) == [Tick(tb, a)[0]] + Tick(tb[1..], a);
    }
  }

  /** `n` ticks of the same timer, each applied to the result of the last. */
  function Ticks(docs: seq<Document>, id: string, n: nat): (r: seq<Document>)
    ensures |r| == |docs|
    decreases n
  {
    if n == 0 then docs else Ticks(Tick(docs, id), id, n - 1)
  }

  /** One more tick after `n` ticks. */
  lemma {:induction false} TicksThenTick(docs: seq<Document>, id: string, n: nat)
    decreases n
    ensures Ticks(docs, id, n + 1) == Tick(Ticks(docs, id, n), id)
  {
    if n > 0 {
      TicksThenTick(Tick(docs, id), id, n - 1);
    }
  }

  /** A new entry after `n` ticks: progress 10n, processing from the tenth
      tick on, every other field as it was created. */
  function AfterTicks(d: Document, n: nat): Document
  {
    d.(progress := 10 * n, status := if n >= 10 then Processing else Uploading)
  }

  lemma TickAfterTicks(d: Document, n: nat)
    ensures TickEntry(AfterTicks(d, n)) == AfterTicks(d, n + 1)
  {
  }

  lemma {:induction false} TicksFrom(docs: seq<Document>, id: string, n: nat, i: int, d: Document, m: nat)
    requires 0 <= i < |docs| && docs[i] == AfterTicks(d, m) && d.id == id
    ensures |Ticks(docs, id, n)| == |docs|
    ensures Ticks(docs, id, n)[i] == AfterTicks(d, m + n)
    decreases n
  {
    if n > 0 {
      var next := Tick(docs, id);
      assert next[i] == TickEntry(AfterTicks(d, m));
      TickAfterTicks(d, m);
      TicksFrom(next, id, n - 1, i, d, m + 1);
    }
  }

  /** After `n` ticks an entry that started uploading at 0 has progress 10n;
      it is uploading for the first nine ticks and processing from the tenth
      on. Progress is never capped, and the status never reaches completed. */
  lemma TicksFromFresh(docs: seq<Document>, id: string, n: nat, i: int)
    requires 0 <= i < |docs| && docs[i].id == id
    requires docs[i].progress == 0 && docs[i].status == Uploading
    ensures |Ticks(docs, id, n)| == |docs|
    ensures Ticks(docs, id, n)[i] == AfterTicks(docs[i], n)
  {
    assert AfterTicks(docs[i], 0) == docs[i];
    TicksFrom(docs, id, n, i, docs[i], 0);
  }

  /** Entries with another id are untouched by any number of ticks. */
  lemma {:induction false} TicksLeaveOthers(docs: seq<Document>, id: string, n: nat, i: int)
    requires 0 <= i < |docs| && docs[i].id != id
    ensures |Ticks(docs, id, n)| == |docs|
    ensures Ticks(docs, id, n)[i] == docs[i]
    decreases n
  {
    if n > 0 {
      TicksLeaveOthers(Tick(docs, id), id, n - 1, i);
    }
  }

  /** `n` ticks of a document freshly appended under an id the registry did
      not hold change that document alone. */
  lemma FreshEntryTicks(docs: seq<Document>, d: Document, n: nat)
    requires d.id !in Ids(docs)
    requires d.progress == 0 && d.status == Uploading
    ensures Ticks(docs + [d], d.id, n) == docs + [AfterTicks(d, n)]
  {
    var all := docs + [d];
    var r := Ticks(all, d.id, n);
    var k := |docs|;
    TicksFromFresh(all, d.id, n, k);
    forall i | 0 <= i < k ensures r[i] == docs[i] {
      assert Ids(docs)[i] == all[i].id;
      TicksLeaveOthers(all, d.id, n, i);
    }
    assert r == r[..k] + [r[k]];
    assert r[..k] == docs;
  }

  // ---------------------------------------------------------------------------
  // Completion step

  /** The delayed step that marks the entries with `id` completed. */
  function Complete(docs: seq<Document>, id: string): (r: seq<Document>)
    ensures |r| == |docs|
    ensures forall i :: 0 <= i < |docs| && docs[i].id != id ==> r[i] == docs[i]
    ensures forall i :: 0 <= i < |docs| && docs[i].id == id ==>
      r[i].status == Completed && r[i].(status := docs[i].status) == docs[i]
  {
    if docs == [] then []
    else [if docs[0].id == id then docs[0].(status := Completed) else docs[0]] + Complete(docs[1..], id)
  }

  /** Completing the same id twice is completing it once. */
  lemma CompleteIdempotent(docs: seq<Document>, id: string)
    ensures Complete(Complete(docs, id), id) == Complete(docs, id)
  {
    var x := Complete(Complete(docs, id), id);
    assert forall i :: 0 <= i < |docs| ==> x[i] == Complete(docs, id)[i];
  }

  /** Completing an id the registry does not hold changes nothing. */
  lemma CompleteAbsentIsNoop(docs: seq<Document>, id: string)
    requires id !in Ids(docs)
    ensures Complete(docs, id) == docs
  {
    assert forall i :: 0 <= i < |docs| ==> docs[i].id != id by {
      forall i | 0 <= i < |docs| ensures docs[i].id != id {
        assert Ids(docs)[i] == docs[i].id;
      }
    }
  }

  // ---------------------------------------------------------------------------
  // Removal

  /** `docs.filter(doc => doc.id !== id)`. */
  function Remove(docs: seq<Document>, id: string): (r: seq<Document>)
    ensures |r| <= |docs|
    ensures forall d :: d in r <==> d in docs && d.id != id
  {
    if docs == [] then []
    else if docs[0].id == id then Remove(docs[1..], id)
    else [docs[0]] + Remove(docs[1..], id)
  }

  /** Removal filters piecewise: it keeps the survivors of each part in their
      original order. */
  lemma {:induction false} RemoveAppend(a: seq<Document>, b: seq<Document>, id: string)
    ensures Remove(a + b, id) == Remove(a, id) + Remove(b, id)
  {
    if a == [] {
      assert a + b == b;
    } else {
      assert (a + b)[0] == a[0];
      assert (a + b)[1..] == a[1..] + b;
      RemoveAppend(a[1..], b, id);
    }
  }

  /** Removing an id the registry does not hold changes nothing. */
  lemma {:induction false} RemoveAbsentIsNoop(docs: seq<Document>, id: string)
    requires id !in Ids(docs)
    ensures Remove(docs, id) == docs
  {
    if docs != [] {
      assert Ids(docs) == [docs[0].id] + Ids(docs[1..]);
      RemoveAbsentIsNoop(docs[1..], id);
      assert docs == [docs[0]] + docs[1..];
    }
  }

  /** After removal no entry has the id. */
  lemma RemoveDropsId(docs: seq<Document>, id: string)
    ensures id !in Ids(Remove(docs, id))
  {
    var r := Remove(docs, id);
    forall k | 0 <= k < |r| ensures Ids(r)[k] != id {
      assert r[k] in r;
    }
  }

  /** Removing the same id a second time changes nothing. */
  lemma RemoveIdempotent(docs: seq<Document>, id: string)
    ensures Remove(Remove(docs, id), id) == Remove(docs, id)
  {
    RemoveDropsId(docs, id);
    RemoveAbsentIsNoop(Remove(docs, id), id);
  }

  /** A tick that fires after its document was removed is a no-op. */
  lemma TickAfterRemove(docs: seq<Document>, id: string)
    ensures Tick(Remove(docs, id), id) == Remove(docs, id)
  {
    RemoveDropsId(docs, id);
    TickAbsentIsNoop(Remove(docs, id), id);
  }

  /** A tick and a removal give the same registry in either order. */
  lemma {:induction false} RemoveTickCommute(docs: seq<Document>, removed: string, ticked: string)
    ensures Tick(Remove(docs, removed), ticked) == Remove(Tick(docs, ticked), removed)
  {
    if docs != [] {
      RemoveTickCommute(docs[1..], removed, ticked);
      var t := Tick(docs, ticked);
      assert t == [t[0]] + Tick(docs[1..], ticked);
      assert t[0].id == docs[0].id;
    }
  }

  // ---------------------------------------------------------------------------
  // Unique ids are preserved

  /** Every patch keeps unique ids unique; intake keeps them unique exactly
      when the generated ids are distinct and new. */
  lemma PatchesKeepUniqueIds(docs: seq<Document>, id: string)
    requires UniqueIds(docs)
    ensures UniqueIds(Tick(docs, id))
    ensures UniqueIds(Complete(docs, id))
  {
    var t, c := Tick(docs, id), Complete(docs, id);
    TickKeepsIds(docs, id);
    forall i | 0 <= i < |docs| ensures t[i].id == docs[i].id && c[i].id == docs[i].id {
      assert Ids(t)[i] == Ids(docs)[i];
    }
  }

  lemma {:induction false} RemoveKeepsUniqueIds(docs: seq<Document>, id: string)
    requires UniqueIds(docs)
    ensures UniqueIds(Remove(docs, id))
  {
    if docs != [] {
      RemoveKeepsUniqueIds(docs[1..], id);
      var rest := Remove(docs[1..], id);
      if docs[0].id != id {
        forall d | d in rest ensures d.id != docs[0].id {
          var k :| 1 <= k < |docs| && docs[k] == d;
        }
        var r := [docs[0]] + rest;
        forall i, j | 0 <= i < j < |r| ensures r[i].id != r[j].id {
          if i == 0 {
            assert r[j] in rest;
          } else {
            assert r[i] == rest[i - 1] && r[j] == rest[j - 1];
          }
        }
      }
    }
  }

  /** Intake keeps the ids unique exactly when the generated ids are distinct
      from each other and from every id already registered. */
  lemma IntakeUniqueIds(docs: seq<Document>, files: seq<FileEntry>, ids: seq<string>, times: seq<int>)
    requires |ids| == |files| && |times| == |files|
    requires UniqueIds(docs)
    ensures UniqueIds(Intake(docs, files, ids, times)) <==>
      (forall i, j :: 0 <= i < j < |ids| ==> ids[i] != ids[j]) &&
      (forall i :: 0 <= i < |ids| ==> ids[i] !in Ids(docs))
  {
    if UniqueIds(Intake(docs, files, ids, times)) {
      IntakeUniqueIdsOnlyIf(docs, files, ids, times);
    }
    if (forall i, j :: 0 <= i < j < |ids| ==> ids[i] != ids[j]) &&
       (forall i :: 0 <= i < |ids| ==> ids[i] !in Ids(docs)) {
      IntakeUniqueIdsIf(docs, files, ids, times);
    }
  }

  lemma IntakeUniqueIdsOnlyIf(docs: seq<Document>, files: seq<FileEntry>, ids: seq<string>, times: seq<int>)
    requires |ids| == |files| && |times| == |files|
    requires UniqueIds(Intake(docs, files, ids, times))
    ensures forall i, j :: 0 <= i < j < |ids| ==> ids[i] != ids[j]
    ensures forall i :: 0 <= i < |ids| ==> ids[i] !in Ids(docs)
  {
    var r := Intake(docs, files, ids, times);
    forall i | 0 <= i < |ids| ensures ids[i] !in Ids(docs) {
      forall k | 0 <= k < |docs| ensures Ids(docs)[k] != ids[i] {
        assert r[k].id != r[|docs| + i].id;
      }
    }
    forall i, j | 0 <= i < j < |ids| ensures ids[i] != ids[j] {
      assert r[|docs| + i].id != r[|docs| + j].id;
    }
  }

  lemma IntakeUniqueIdsIf(docs: seq<Document>, files: seq<FileEntry>, ids: seq<string>, times: seq<int>)
    requires |ids| == |files| && |times| == |files|
    requires UniqueIds(docs)
    requires forall i, j :: 0 <= i < j < |ids| ==> ids[i] != ids[j]
    requires forall i :: 0 <= i < |ids| ==> ids[i] !in Ids(docs)
    ensures UniqueIds(Intake(docs, files, ids, times))
  {
    var r := Intake(docs, files, ids, times);
    forall i, j | 0 <= i < j < |r| ensures r[i].id != r[j].id {
      if j >= |docs| && i < |docs| {
        assert Ids(docs)[i] == r[i].id;
        assert r[j].id == ids[j - |docs|];
      } else if i >= |docs| {
        assert r[i].id == ids[i - |docs|] && r[j].id == ids[j - |docs|];
      }
    }
  }
}
