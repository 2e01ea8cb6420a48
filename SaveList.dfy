/** Collection of the connections to remember when the application exits:
    at most one descriptor per open document, in document order; a document
    with no usable connection is skipped. */
module SaveList {
  import opened Connections

  /** Reading the connection of a document that has no usable locked
      connection dereferences its database without a null check, so a
      document without a database aborts the collection. */
  predicate SaveFaults(d: Document)
    ensures SaveFaults(d) ==> EffectivePath(d).None?
  {
    !HasUsableLockedIoc(d) && d.database.None?
  }

  /** What one document contributes: its locked connection when that has a
      non-empty path, else its database connection when that has a non-empty
      path, else nothing. */
  function Pick(d: Document): (r: seq<IoConnection>)
    ensures |r| <= 1
    ensures r != [] <==> EffectivePath(d).Some?
    ensures r != [] ==> EffectivePath(d) == Some(r[0].path)
  {
    if HasUsableLockedIoc(d) then [d.lockedIoc.value]
    else if HasUsableDatabaseIoc(d) then [d.database.value.ioc.value]
    else []
  }

  /** The descriptors collected from `docs` when no document aborts. */
  function Collected(docs: seq<Document>): (r: seq<IoConnection>)
    ensures |r| <= |docs|
  {
    if docs == [] then [] else Collected(docs[..|docs| - 1]) + Pick(docs[|docs| - 1])
  }

  /** Result of the collection loop: `None` when some document aborts it. */
  function Collect(docs: seq<Document>): (r: Option<seq<IoConnection>>)
    ensures r.None? <==> exists i :: 0 <= i < |docs| && SaveFaults(docs[i])
    ensures r.Some? ==> |r.value| <= |docs| && forall c :: c in r.value ==> |c.path| > 0
  {
    if exists i :: 0 <= i < |docs| && SaveFaults(docs[i]) then None
    else
      CollectedPaths(docs);
      Some(Collected(docs))
  }

  /** The collection loop. `None` stands for the aborted collection: nothing
      is handed on to be written. */
  method CollectConnections(docs: seq<Document>) returns (r: Option<seq<IoConnection>>)
    ensures r.None? <==> exists i :: 0 <= i < |docs| && SaveFaults(docs[i])
    ensures r.Some? ==> r.value == Collected(docs)
  {
    var connections: seq<IoConnection> := [];
    for i := 0 to |docs|
      invariant connections == Collected(docs[..i])
      invariant forall j :: 0 <= j < i ==> !SaveFaults(docs[j])
    {
      var document := docs[i];
      assert docs[..i + 1][..i] == docs[..i];
      if document.lockedIoc.Some? && |document.lockedIoc.value.path| > 0 {
        connections := connections + [document.lockedIoc.value];
      } else if document.database.None? {
        return None;
      } else if document.database.value.ioc.Some? && |document.database.value.ioc.value.path| > 0 {
        connections := connections + [document.database.value.ioc.value];
      }
    }
    assert docs[..|docs|] == docs;
    return Some(connections);
  }

  /** Collecting from two runs of documents one after the other gives the two
      collections one after the other: order is kept, and each document
      contributes on its own. */
  lemma {:induction false} CollectedAppend(a: seq<Document>, b: seq<Document>)
    ensures Collected(a + b) == Collected(a) + Collected(b)
    decreases |b|
  {
    if b == [] {
      assert a + b == a;
    } else {
      var b' := b[..|b| - 1];
      assert (a + b)[..|a + b| - 1] == a + b';
      CollectedAppend(a, b');
    }
  }

  /** Document `i` contributes exactly `Pick(docs[i])`, placed after what the
      documents before it contribute. */
  lemma CollectedSplit(docs: seq<Document>, i: nat)
    requires i < |docs|
    ensures Collected(docs) == Collected(docs[..i]) + Pick(docs[i]) + Collected(docs[i + 1..])
  {
    var p, q := docs[..i + 1], docs[i + 1..];
    assert docs == p + q;
    CollectedAppend(p, q);
    assert p[..|p| - 1] == docs[..i];
  }

  /** Every collected descriptor has a non-empty path, and it is the path the
      document it came from stands for. */
  lemma {:induction false} CollectedPaths(docs: seq<Document>)
    ensures forall c :: c in Collected(docs) ==> |c.path| > 0
    ensures forall c :: c in Collected(docs) ==>
      exists j :: 0 <= j < |docs| && EffectivePath(docs[j]) == Some(c.path)
  {
    if docs != [] {
      var init := docs[..|docs| - 1];
      CollectedPaths(init);
      forall c | c in Collected(docs)
        ensures |c.path| > 0
        ensures exists j :: 0 <= j < |docs| && EffectivePath(docs[j]) == Some(c.path)
      {
        if c in Collected(init) {
          var j :| 0 <= j < |init| && EffectivePath(init[j]) == Some(c.path);
          assert docs[j] == init[j];
        } else {
          assert c in Pick(docs[|docs| - 1]);
          assert EffectivePath(docs[|docs| - 1]) == Some(c.path);
        }
      }
    }
  }

  /** A document with a usable locked connection contributes that connection,
      even when its database has a usable connection too; otherwise a usable
      database connection is taken. */
  lemma CollectedPrefersLocked(docs: seq<Document>, i: nat)
    requires i < |docs|
    ensures HasUsableLockedIoc(docs[i]) ==>
      |Collected(docs[..i])| < |Collected(docs)| &&
      Collected(docs)[|Collected(docs[..i])|] == docs[i].lockedIoc.value
    ensures !HasUsableLockedIoc(docs[i]) && HasUsableDatabaseIoc(docs[i]) ==>
      |Collected(docs[..i])| < |Collected(docs)| &&
      Collected(docs)[|Collected(docs[..i])|] == docs[i].database.value.ioc.value
    ensures !HasUsableLockedIoc(docs[i]) && !HasUsableDatabaseIoc(docs[i]) ==>
      |Collected(docs[..i + 1])| == |Collected(docs[..i])|
  {
    CollectedSplit(docs, i);
    assert docs[..i + 1][..i] == docs[..i];
  }
}
