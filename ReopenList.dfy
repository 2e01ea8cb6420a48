/** The startup decision: which remembered connections are opened again. An
    entry is opened when no open document already stands for its path. */
module ReopenList {
  import opened Connections
  import opened PathText
  import opened SaveList

  /** Reading the path of a document that has no usable locked connection
      but has a database dereferences the database's connection without a
      null check, so a database without a connection aborts the scan. */
  predicate ScanFaults(d: Document)
    ensures ScanFaults(d) ==> EffectivePath(d).None? && !SaveFaults(d)
  {
    !HasUsableLockedIoc(d) && d.database.Some? && d.database.value.ioc.None?
  }

  /** The document stands for the path whose comparison key is `cmpPath`. */
  predicate Matches(d: Document, cmpPath: string) {
    EffectivePath(d).Some? && Normalize(EffectivePath(d).value) == cmpPath
  }

  /** Some open document stands for `path`, both sides compared by key. */
  predicate AlreadyOpen(docs: seq<Document>, path: string) {
    exists j :: 0 <= j < |docs| && Matches(docs[j], Normalize(path))
  }

  /** No open document can abort a scan. */
  predicate ScanSafe(docs: seq<Document>) {
    forall j :: 0 <= j < |docs| ==> !ScanFaults(docs[j])
  }

  datatype ScanResult = Loaded | NotLoaded | Failed

  /** Outcome of scanning the open documents in order for `cmpPath`; the scan
      stops at the first matching document or at the first one that aborts. */
  function Scan(docs: seq<Document>, cmpPath: string): (r: ScanResult)
    ensures r == Loaded ==> exists j :: 0 <= j < |docs| && Matches(docs[j], cmpPath)
    ensures r == Failed ==> exists j :: 0 <= j < |docs| && ScanFaults(docs[j])
  {
    if docs == [] then NotLoaded
    else if ScanFaults(docs[0]) then Failed
    else if Matches(docs[0], cmpPath) then Loaded
    else
      var rest := docs[1..];
      assert forall j :: 0 <= j < |rest| ==> rest[j] == docs[j + 1];
      Scan(rest, cmpPath)
  }

  /** The inner loop of the startup handler: is the file already loaded? */
  method IsLoaded(docs: seq<Document>, cmpPath: string) returns (r: ScanResult)
    ensures r == Scan(docs, cmpPath)
  {
    var isLoaded := false;
    var i := 0;
    while i < |docs|
      invariant 0 <= i <= |docs|
      invariant !isLoaded
      invariant Scan(docs, cmpPath) == Scan(docs[i..], cmpPath)
    {
      var loadedDoc := docs[i];
      if loadedDoc.lockedIoc.Some? && |loadedDoc.lockedIoc.value.path| > 0 {
        isLoaded := Normalize(loadedDoc.lockedIoc.value.path) == cmpPath;
      } else if loadedDoc.database.Some? {
        match loadedDoc.database.value.ioc
        case None =>
          return Failed;
        case Some(ioc) =>
          if |ioc.path| > 0 {
            isLoaded := Normalize(ioc.path) == cmpPath;
          }
      }
      if isLoaded {
        break;
      }
      assert docs[i..][1..] == docs[i + 1..];
      i := i + 1;
    }
    r := if isLoaded then Loaded else NotLoaded;
  }

  lemma FaultingDocumentMatchesNothing(d: Document, cmpPath: string)
    requires ScanFaults(d)
    ensures !Matches(d, cmpPath)
  {
  }

  /** The scan finds nothing exactly when no document aborts and none matches. */
  lemma {:induction false} ScanNotLoadedIff(docs: seq<Document>, cmpPath: string)
    ensures Scan(docs, cmpPath) == NotLoaded <==>
      forall j :: 0 <= j < |docs| ==> !ScanFaults(docs[j]) && !Matches(docs[j], cmpPath)
  {
    if docs != [] {
      var rest := docs[1..];
      ScanNotLoadedIff(rest, cmpPath);
      if Scan(docs, cmpPath) == NotLoaded {
        forall j | 0 <= j < |docs|
          ensures !ScanFaults(docs[j]) && !Matches(docs[j], cmpPath)
        {
          if j > 0 {
            assert docs[j] == rest[j - 1];
          }
        }
      } else if !ScanFaults(docs[0]) && !Matches(docs[0], cmpPath) {
        var j :| 0 <= j < |rest| && (ScanFaults(rest[j]) || Matches(rest[j], cmpPath));
        assert docs[j + 1] == rest[j];
      }
    }
  }

  /** The scan finds the file loaded exactly when some document matches and
      no document before it aborts. */
  lemma {:induction false} ScanLoadedIff(docs: seq<Document>, cmpPath: string)
    ensures Scan(docs, cmpPath) == Loaded <==>
      exists j :: 0 <= j < |docs| && Matches(docs[j], cmpPath) &&
        forall k :: 0 <= k < j ==> !ScanFaults(docs[k])
  {
    if docs != [] {
      var rest := docs[1..];
      ScanLoadedIff(rest, cmpPath);
      if Scan(docs, cmpPath) == Loaded {
        if !Matches(docs[0], cmpPath) {
          var j :| 0 <= j < |rest| && Matches(rest[j], cmpPath) &&
            forall k :: 0 <= k < j ==> !ScanFaults(rest[k]);
          assert Matches(docs[j + 1], cmpPath);
          forall k | 0 <= k < j + 1 ensures !ScanFaults(docs[k]) {
            if k > 0 {
              assert docs[k] == rest[k - 1];
            }
          }
        }
      } else {
        forall j | 0 <= j < |docs| && Matches(docs[j], cmpPath)
          ensures exists k :: 0 <= k < j && ScanFaults(docs[k])
        {
          if ScanFaults(docs[0]) {
            FaultingDocumentMatchesNothing(docs[0], cmpPath);
          } else {
            assert j > 0;
            assert rest[j - 1] == docs[j];
            var k :| 0 <= k < j - 1 && ScanFaults(rest[k]);
            assert docs[k + 1] == rest[k];
          }
        }
      }
    }
  }

  /** The scan aborts exactly when some document aborts and no document
      before it matches. */
  lemma {:induction false} ScanFailedIff(docs: seq<Document>, cmpPath: string)
    ensures Scan(docs, cmpPath) == Failed <==>
      exists j :: 0 <= j < |docs| && ScanFaults(docs[j]) &&
        forall k :: 0 <= k < j ==> !Matches(docs[k], cmpPath)
  {
    if docs != [] {
      var rest := docs[1..];
      ScanFailedIff(rest, cmpPath);
      if Scan(docs, cmpPath) == Failed {
        if !ScanFaults(docs[0]) {
          var j :| 0 <= j < |rest| && ScanFaults(rest[j]) &&
            forall k :: 0 <= k < j ==> !Matches(rest[k], cmpPath);
          assert ScanFaults(docs[j + 1]);
          forall k | 0 <= k < j + 1 ensures !Matches(docs[k], cmpPath) {
            if k > 0 {
              assert docs[k] == rest[k - 1];
            }
          }
        }
      } else {
        forall j | 0 <= j < |docs| && ScanFaults(docs[j])
          ensures exists k :: 0 <= k < j && Matches(docs[k], cmpPath)
        {
          if !Matches(docs[0], cmpPath) {
            assert j > 0;
            assert rest[j - 1] == docs[j];
            var k :| 0 <= k < j - 1 && Matches(rest[k], cmpPath);
            assert docs[k + 1] == rest[k];
          }
        }
      }
    }
  }

  /** When no document can abort, the scan finds the entry loaded exactly when
      some open document stands for its path. */
  lemma ScanWhenSafe(docs: seq<Document>, path: string)
    requires ScanSafe(docs)
    ensures Scan(docs, Normalize(path)) == (if AlreadyOpen(docs, path) then Loaded else NotLoaded)
  {
    ScanNotLoadedIff(docs, Normalize(path));
    ScanFailedIff(docs, Normalize(path));
  }

  /** The scan for a remembered entry aborts. */
  predicate ScanAborts(docs: seq<Document>, entry: IoConnection) {
    Scan(docs, Normalize(entry.path)) == Failed
  }

  datatype ReopenResult = ReopenResult(toOpen: seq<IoConnection>, failed: bool)

  /** The outer loop of the startup handler over the remembered entries: the
      connections handed to the host to open, in order, and whether a scan
      aborted the loop. */
  function Reopen(saved: seq<IoConnection>, docs: seq<Document>): (r: ReopenResult)
    ensures |r.toOpen| <= |saved|
    ensures forall e :: e in r.toOpen ==> e in saved
  {
    if saved == [] then ReopenResult([], false)
    else
      var prior := Reopen(saved[..|saved| - 1], docs);
      var entry := saved[|saved| - 1];
      if prior.failed then prior
      else match Scan(docs, Normalize(entry.path))
        case Loaded => prior
        case NotLoaded => ReopenResult(prior.toOpen + [entry], false)
        case Failed => ReopenResult(prior.toOpen, true)
  }

  /** The remembered entries, in order and with repeats, that no open document
      stands for. */
  function Missing(saved: seq<IoConnection>, docs: seq<Document>): seq<IoConnection>
  {
    if saved == [] then []
    else
      var entry := saved[|saved| - 1];
      Missing(saved[..|saved| - 1], docs) + (if AlreadyOpen(docs, entry.path) then [] else [entry])
  }

  /** When some open document can abort a scan, nothing is ever opened: every
      entry's scan either meets a matching document first or aborts. */
  lemma {:induction false} NoOpenWhenUnsafe(saved: seq<IoConnection>, docs: seq<Document>)
    requires !ScanSafe(docs)
    ensures Reopen(saved, docs).toOpen == []
  {
    if saved != [] {
      var entry := saved[|saved| - 1];
      NoOpenWhenUnsafe(saved[..|saved| - 1], docs);
      ScanNotLoadedIff(docs, Normalize(entry.path));
    }
  }

  /** Only remembered entries that no open document stands for are opened. */
  lemma {:induction false} ReopenOnlyMissing(saved: seq<IoConnection>, docs: seq<Document>)
    ensures forall e :: e in Reopen(saved, docs).toOpen ==> e in saved && !AlreadyOpen(docs, e.path)
  {
    if saved != [] {
      var init := saved[..|saved| - 1];
      var entry := saved[|saved| - 1];
      ReopenOnlyMissing(init, docs);
      ScanNotLoadedIff(docs, Normalize(entry.path));
      if !Reopen(init, docs).failed && Scan(docs, Normalize(entry.path)) == NotLoaded {
        assert !AlreadyOpen(docs, entry.path);
      }
    }
  }

  /** When no document can abort a scan, exactly the missing entries are
      opened, in the remembered order, and nothing fails. */
  lemma {:induction false} ReopenWhenSafe(saved: seq<IoConnection>, docs: seq<Document>)
    requires ScanSafe(docs)
    ensures Reopen(saved, docs) == ReopenResult(Missing(saved, docs), false)
  {
    if saved != [] {
      ReopenWhenSafe(saved[..|saved| - 1], docs);
      ScanWhenSafe(docs, saved[|saved| - 1].path);
    }
  }

  /** Each remembered entry that no open document stands for is among the
      missing ones as often as it is remembered: repeats are not merged. */
  lemma {:induction false} MissingCount(saved: seq<IoConnection>, docs: seq<Document>, e: IoConnection)
    ensures multiset(Missing(saved, docs))[e] ==
      if AlreadyOpen(docs, e.path) then 0 else multiset(saved)[e]
  {
    if saved != [] {
      var init := saved[..|saved| - 1];
      MissingCount(init, docs, e);
      assert saved == init + [saved[|saved| - 1]];
    }
  }

  /** Missing entries keep the remembered order: the missing entries of a
      concatenation are those of each part, one after the other. */
  lemma {:induction false} MissingAppend(a: seq<IoConnection>, b: seq<IoConnection>, docs: seq<Document>)
    ensures Missing(a + b, docs) == Missing(a, docs) + Missing(b, docs)
    decreases |b|
  {
    if b == [] {
      assert a + b == a;
    } else {
      var b' := b[..|b| - 1];
      assert (a + b)[..|a + b| - 1] == a + b';
      MissingAppend(a, b', docs);
    }
  }

  /** One turn of the reopen loop, for entry `i`. */
  lemma ReopenNext(saved: seq<IoConnection>, docs: seq<Document>, i: nat)
    requires i < |saved| && !Reopen(saved[..i], docs).failed
    ensures Reopen(saved[..i + 1], docs) ==
      match Scan(docs, Normalize(saved[i].path))
      case Loaded => Reopen(saved[..i], docs)
      case NotLoaded => ReopenResult(Reopen(saved[..i], docs).toOpen + [saved[i]], false)
      case Failed => ReopenResult(Reopen(saved[..i], docs).toOpen, true)
  {
    assert saved[..i + 1][..i] == saved[..i];
  }

  /** Once a scan has aborted, later entries change nothing. */
  lemma {:induction false} ReopenFailedStays(saved: seq<IoConnection>, docs: seq<Document>, k: nat)
    requires k <= |saved|
    requires Reopen(saved[..k], docs).failed
    ensures Reopen(saved, docs) == Reopen(saved[..k], docs)
    decreases |saved| - k
  {
    if k < |saved| {
      var init := saved[..|saved| - 1];
      assert init[..k] == saved[..k];
      ReopenFailedStays(init, docs, k);
    } else {
      assert saved[..k] == saved;
    }
  }

  /** An entry whose scan aborts ends the loop: the handler fails and opens
      nothing beyond what the entries before it opened. */
  lemma ReopenStopsAtFailure(saved: seq<IoConnection>, docs: seq<Document>, k: nat)
    requires k < |saved|
    requires !Reopen(saved[..k], docs).failed
    requires Scan(docs, Normalize(saved[k].path)) == Failed
    ensures Reopen(saved, docs) == ReopenResult(Reopen(saved[..k], docs).toOpen, true)
  {
    assert saved[..k + 1][..k] == saved[..k];
    ReopenFailedStays(saved, docs, k + 1);
  }

  /** The handler fails exactly when the scan of some remembered entry aborts. */
  lemma ReopenFailedStep(saved: seq<IoConnection>, docs: seq<Document>)
    requires saved != []
    ensures Reopen(saved, docs).failed ==
      (Reopen(saved[..|saved| - 1], docs).failed || ScanAborts(docs, saved[|saved| - 1]))
  {
  }

  /** An entry whose scan aborts makes the handler fail. */
  lemma {:induction false} ReopenFailsAt(saved: seq<IoConnection>, docs: seq<Document>, k: nat)
    requires k < |saved| && ScanAborts(docs, saved[k])
    ensures Reopen(saved, docs).failed
  {
    var n := |saved| - 1;
    var init := saved[..n];
    ReopenFailedStep(saved, docs);
    if k < n {
      assert init[k] == saved[k];
      ReopenFailsAt(init, docs, k);
      assert Reopen(init, docs).failed;
    } else {
      assert k == n;
    }
  }

  /** The handler fails only if the scan of some remembered entry aborts. */
  lemma {:induction false} ReopenFailsOnlyOnAbort(saved: seq<IoConnection>, docs: seq<Document>)
    requires Reopen(saved, docs).failed
    ensures exists k :: 0 <= k < |saved| && ScanAborts(docs, saved[k])
  {
    var n := |saved| - 1;
    var init := saved[..n];
    ReopenFailedStep(saved, docs);
    if Reopen(init, docs).failed {
      ReopenFailsOnlyOnAbort(init, docs);
      var k :| 0 <= k < |init| && ScanAborts(docs, init[k]);
      assert saved[k] == init[k];
    }
  }

  lemma {:induction false} MissingNone(saved: seq<IoConnection>, docs: seq<Document>)
    requires forall e :: e in saved ==> AlreadyOpen(docs, e.path)
    ensures Missing(saved, docs) == []
  {
    if saved != [] {
      var init := saved[..|saved| - 1];
      assert forall e :: e in init ==> e in saved;
      MissingNone(init, docs);
      assert saved[|saved| - 1] in saved;
    }
  }

  /** Reopening the list the close handler collects, against the same open
      documents, opens nothing: every collected path is already open. */
  lemma CollectedListReopensNothing(docs: seq<Document>)
    requires ScanSafe(docs)
    ensures Reopen(Collected(docs), docs) == ReopenResult([], false)
  {
    var saved := Collected(docs);
    CollectedPaths(docs);
    forall e | e in saved ensures AlreadyOpen(docs, e.path) {
      var j :| 0 <= j < |docs| && EffectivePath(docs[j]) == Some(e.path);
      assert Matches(docs[j], Normalize(e.path));
    }
    MissingNone(saved, docs);
    ReopenWhenSafe(saved, docs);
  }

  /** Startup as a whole: a missing or empty stored value opens nothing and
      reports nothing; a value that does not decode opens nothing and reports
      one error; otherwise the decoded entries go through the reopen loop. */
  function Startup(stored: Option<string>, docs: seq<Document>,
                   decode: string -> Option<seq<IoConnection>>): (r: ReopenResult)
    ensures stored.None? || stored == Some("") ==> r == ReopenResult([], false)
    ensures stored.Some? && stored.value != "" && decode(stored.value).None? ==>
      r == ReopenResult([], true)
    ensures forall e :: e in r.toOpen ==> !AlreadyOpen(docs, e.path)
    ensures stored.Some? && stored.value != "" && decode(stored.value).Some? && ScanSafe(docs) ==>
      r == ReopenResult(Missing(decode(stored.value).value, docs), false)
    ensures stored.Some? && stored.value != "" && decode(stored.value).Some? && !ScanSafe(docs) ==>
      r.toOpen == []
  {
    if stored.None? || stored.value == "" then ReopenResult([], false)
    else match decode(stored.value)
      case None => ReopenResult([], true)
      case Some(saved) =>
        ReopenOnlyMissing(saved, docs);
        if ScanSafe(docs) then
          ReopenWhenSafe(saved, docs);
          Reopen(saved, docs)
        else
          NoOpenWhenUnsafe(saved, docs);
          Reopen(saved, docs)
  }
}
