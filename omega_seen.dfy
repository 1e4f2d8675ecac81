/** Model of the "seen document" bookkeeping of the Omega file indexer
    (xapian-applications/omega/index_file.cc): which of the documents that
    were in the database before this run have been seen again, and the
    deletion of those that were not.

    The database is abstracted to the set of its document ids. */
module OmegaSeen {

  /** Xapian::doccount: an unsigned 32-bit count. */
  type DocCount = x: nat | x < 0x1_0000_0000

  /** Xapian::docid: an unsigned 32-bit document id. */
  type DocId = x: nat | x < 0x1_0000_0000

  /** --n on an unsigned 32-bit counter. */
  function Decrement(n: DocCount): (r: DocCount)
    ensures n > 0 ==> r == n - 1
    ensures n == 0 ==> r == 0xFFFF_FFFF
  {
    if n == 0 then 0xFFFF_FFFF else n - 1
  }

  /** What mark_as_seen does to the seen flags and the counter. */
  function MarkSeen(updated: seq<bool>, notSeen: DocCount, did: nat): (r: (seq<bool>, DocCount))
    ensures |r.0| == |updated|
    ensures r != (updated, notSeen) ==> did < |updated| && !updated[did] && r.0[did]
  {
    if did < |updated| && !updated[did] then (updated[did := true], Decrement(notSeen))
    else (updated, notSeen)
  }

  /** Marking a document as seen a second time changes nothing. */
  lemma MarkSeenIdempotent(updated: seq<bool>, notSeen: DocCount, did: nat)
    ensures var (u, n) := MarkSeen(updated, notSeen, did);
      MarkSeen(u, n, did) == (u, n)
  {
  }

  /** Marking changes something exactly when did has a flag that is still
      clear; then that flag alone is set and the counter goes down by one. */
  lemma MarkSeenChanges(updated: seq<bool>, notSeen: DocCount, did: nat)
    ensures var (u, n) := MarkSeen(updated, notSeen, did);
      && |u| == |updated|
      && ((u, n) != (updated, notSeen) <==> did < |updated| && !updated[did])
      && (did < |updated| && !updated[did] ==>
            u[did] && (notSeen > 0 ==> n == notSeen - 1)
            && forall j :: 0 <= j < |updated| && j != did ==> u[j] == updated[j])
  {
    if did < |updated| && !updated[did] {
      assert MarkSeen(updated, notSeen, did).0[did];
    }
  }

  /** A set of naturals that has a member at least lo has a least such
      member. */
  lemma {:induction false} LeastAtLeastExists(s: set<nat>, lo: nat, w0: nat)
    requires w0 in s && w0 >= lo
    ensures exists m :: m in s && m >= lo && forall d :: d in s && d >= lo ==> m <= d
    decreases w0 - lo
  {
    if w0 > lo && exists d :: d in s && lo <= d < w0 {
      var d :| d in s && lo <= d < w0;
      LeastAtLeastExists(s, lo, d);
    } else {
      assert forall d :: d in s && d >= lo ==> w0 <= d;
    }
  }

  /** The seen flags and counter kept while indexing, together with the
      document ids of the database. */
  class SeenTracker {
    /** updated[did]: document did has been seen in this run. */
    var updated: seq<bool>
    /** How many documents that were in the database have not been seen. */
    var oldDocsNotSeen: DocCount
    /** The document ids in the database. */
    var docs: set<nat>

    /** The documents still in the database that have not been seen. */
    ghost function Unseen(): set<nat>
      reads this
    {
      set d | d in docs && d < |updated| && !updated[d]
    }

    /** When the flags are kept, the counter counts the documents that have
      a flag still clear.  Documents added during the run have ids past the
      flags and are not counted. */
    ghost predicate Valid()
      reads this
    {
      |updated| > 0 ==> oldDocsNotSeen == |Unseen()|
    }

    /** The set-up in index_init for an existing database: the counter
        starts at the document count and, when removed documents are to be
        deleted, the flags are resized to lastDocid + 1 in 32-bit unsigned
        arithmetic, all clear; for the largest docid that sum wraps to 0
        and no flags are kept. */
    constructor (docs: set<nat>, lastDocid: DocId, deleteRemovedDocuments: bool)
      requires forall d :: d in docs ==> d <= lastDocid
      requires |docs| < 0x1_0000_0000
      ensures this.docs == docs && oldDocsNotSeen == |docs|
      ensures deleteRemovedDocuments ==>
        && |updated| == (lastDocid + 1) % 0x1_0000_0000
        && forall j :: 0 <= j < |updated| ==> !updated[j]
      ensures deleteRemovedDocuments && lastDocid < 0xFFFF_FFFF ==> |updated| == lastDocid + 1
      ensures !deleteRemovedDocuments || lastDocid == 0xFFFF_FFFF ==> updated == []
      ensures Valid()
    {
      this.docs := docs;
      oldDocsNotSeen := |docs|;
      if deleteRemovedDocuments {
        var size: DocId := (lastDocid + 1) % 0x1_0000_0000;
        updated := seq(size, _ => false);
      } else {
        updated := [];
      }
      new;
      if |updated| > 0 {
        assert Unseen() == docs;
      }
    }

    /** mark_as_seen: record that document did was seen. */
    method MarkAsSeen(did: nat)
      modifies this
      ensures (updated, oldDocsNotSeen) == MarkSeen(old(updated), old(oldDocsNotSeen), did)
      ensures docs == old(docs)
      ensures old(Valid()) && did in docs ==> Valid()
    {
      if did < |updated| && !updated[did] {
        ghost var before := Unseen();
        updated := updated[did := true];
        oldDocsNotSeen := Decrement(oldDocsNotSeen);
        if old(Valid()) && did in docs {
          assert Unseen() == before - {did};
        }
      }
    }

    /** A document added by index_add_document: the database hands out an
        id above the last one there was at the start, so it has no flag and
        the mark_as_seen that follows leaves everything as it was. */
    method AddNewDocument(did: nat)
      modifies this
      requires did !in docs && did >= |updated|
      ensures docs == old(docs) + {did}
      ensures updated == old(updated) && oldDocsNotSeen == old(oldDocsNotSeen)
      ensures Unseen() == old(Unseen())
      ensures old(Valid()) ==> Valid()
    {
      docs := docs + {did};
      MarkAsSeen(did);
    }

    /** The invariant of the deletion loop at docid did: the documents
        deleted so far are the unseen ones below did, and the counter
        counts the unseen ones left. */
    ghost predicate Deleting(did: nat, unseen0: set<nat>, docs0: set<nat>)
      reads this
    {
      && (forall d :: d in unseen0 ==> d < |updated|)
      && docs == docs0 - (unseen0 - Unseen())
      && Unseen() == (set d | d in unseen0 && d >= did)
      && oldDocsNotSeen == |Unseen()|
    }

    /** One turn of the deletion loop at an unseen flag: skip to the first
        document at or after did; if it is did, delete it and count it. */
    method DeletionStep(did: nat, ghost unseen0: set<nat>, ghost docs0: set<nat>) returns (stop: bool, did': nat)
      modifies this
      requires did < |updated| && !updated[did] && Deleting(did, unseen0, docs0)
      ensures updated == old(updated)
      ensures stop ==> Unseen() == {} && oldDocsNotSeen == 0 && docs == docs0 - unseen0
      ensures !stop ==> did < did' && Deleting(did', unseen0, docs0)
    {
      // skip_to(did): the first document at or after did.
      if !exists d :: d in docs && d >= did {
        assert Unseen() == {};
        return true, did;
      }
      var w :| w in docs && w >= did;
      LeastAtLeastExists(docs, did, w);
      var next :| next in docs && next >= did && forall d :: d in docs && d >= did ==> next <= d;
      if next != did {
        // No document has id did: move on to the next one there is.
        assert Unseen() == set d | d in unseen0 && d >= next;
        return false, next;
      }
      ghost var before := Unseen();
      assert did in before;
      docs := docs - {did};
      assert Unseen() == before - {did};
      oldDocsNotSeen := oldDocsNotSeen - 1;
      if oldDocsNotSeen == 0 {
        assert Unseen() == {} by {
          assert |Unseen()| == 0;
        }
        return true, did;
      }
      assert Unseen() == set d | d in unseen0 && d >= did + 1;
      return false, did + 1;
    }

    /** index_handle_deletion: delete every document of the database that
        was there before and was not seen, walking the docids upwards and
        stopping as soon as the counter reaches 0. */
    method HandleDeletion()
      modifies this
      requires Valid()
      ensures updated == old(updated)
      ensures docs == old(docs) - old(Unseen())
      ensures forall d :: d in old(docs) && d >= |updated| ==> d in docs
      ensures |updated| > 0 ==> oldDocsNotSeen == 0
      ensures |updated| == 0 ==> oldDocsNotSeen == old(oldDocsNotSeen)
      ensures Valid()
    {
      if |updated| == 0 || oldDocsNotSeen == 0 {
        assert Unseen() == {} by {
          if |updated| > 0 {
            assert |Unseen()| == 0;
          }
        }
        return;
      }
      ghost var unseen0 := Unseen();
      assert unseen0 != {} by {
        assert |unseen0| > 0;
      }
      ghost var some :| some in unseen0;
      LeastAtLeastExists(docs, 0, some);
      // The first document in the database.
      var did :| did in docs && forall d :: d in docs ==> did <= d;
      assert Unseen() == set d | d in unseen0 && d >= did;
      while did < |updated|
        invariant updated == old(updated)
        invariant Deleting(did, unseen0, old(docs))
        decreases |updated| - did
      {
        if !updated[did] {
          var stop;
          stop, did := DeletionStep(did, unseen0, old(docs));
          if stop {
            return;
          }
        } else {
          assert Unseen() == set d | d in unseen0 && d >= did + 1;
          did := did + 1;
        }
      }
      assert Unseen() == {} by {
        assert forall d :: d in unseen0 ==> d < |updated|;
      }
    }
  }
}
