/** What the DNS provider answers: directory listings and upsert outcomes.
    The HTTP exchange itself is not modelled; its answers are inputs. */
module Provider {
  import opened Wrappers

  /** One row of a zone or record listing: its id and its name. */
  datatype Entry = Entry(id: string, name: string)

  /** The answer to a listing request: the rows, an HTTP error status, or a
      failure below HTTP (no connection, no name resolution). */
  datatype Listing = Listed(entries: seq<Entry>) | HttpFailure | ConnectionFailure

  /** An update of one record: addressed to a zone id and a record id (both
      as the configuration holds them, possibly null), carrying the record
      type, the host label and the new content. The record id also travels in
      the body as its `id` field. */
  datatype UpsertRequest = UpsertRequest(
    zone: Option<string>,
    record: Option<string>,
    rtype: string,
    name: string,
    content: string)

  /** Succeeded: the provider answered `success: true`. Rejected: it answered
      `success: false`. Failed: any exception on the way. */
  datatype UpsertOutcome = Succeeded | Rejected | Failed

  /** The provider's answer to every possible update request. */
  type Oracle = UpsertRequest -> UpsertOutcome

  predicate NoMatch(entries: seq<Entry>, key: string)
  {
    forall i :: 0 <= i < |entries| ==> entries[i].name != key
  }

  /** Index `i` is the last entry named `key`. */
  predicate IsLastMatch(entries: seq<Entry>, key: string, i: int)
  {
    && 0 <= i < |entries|
    && entries[i].name == key
    && forall j :: i < j < |entries| ==> entries[j].name != key
  }

  lemma LastMatchUnique(entries: seq<Entry>, key: string, i: int, k: int)
    requires IsLastMatch(entries, key, i) && IsLastMatch(entries, key, k)
    ensures i == k
  {
  }

  /** The scan of a listing for an exact name match, from first row to
      last, overwriting the id at every match: the last match wins, and with
      no match the id stays what it was. */
  function ResolveId(current: Option<string>, entries: seq<Entry>, key: string): (r: Option<string>)
    ensures NoMatch(entries, key) ==> r == current
    ensures !NoMatch(entries, key) ==>
              exists i :: IsLastMatch(entries, key, i) && r == Some(entries[i].id)
    decreases |entries|
  {
    if |entries| == 0 then current
    else
      var next := if entries[0].name == key then Some(entries[0].id) else current;
      var r := ResolveId(next, entries[1..], key);
      ResolveIdStep(current, entries, key, r);
      r
  }

  /** The inductive step of ResolveId's contract. */
  lemma ResolveIdStep(current: Option<string>, entries: seq<Entry>, key: string, r: Option<string>)
    requires |entries| > 0
    requires var next := if entries[0].name == key then Some(entries[0].id) else current;
             && (NoMatch(entries[1..], key) ==> r == next)
             && (!NoMatch(entries[1..], key) ==>
                   exists i :: IsLastMatch(entries[1..], key, i) && r == Some(entries[1..][i].id))
    ensures NoMatch(entries, key) ==> r == current
    ensures !NoMatch(entries, key) ==>
              exists i :: IsLastMatch(entries, key, i) && r == Some(entries[i].id)
  {
    var tail := entries[1..];
    if NoMatch(tail, key) {
      if entries[0].name == key {
        assert IsLastMatch(entries, key, 0);
      } else {
        forall i | 0 <= i < |entries| ensures entries[i].name != key {
          if i > 0 { assert entries[i] == tail[i - 1]; }
        }
      }
    } else {
      var i :| IsLastMatch(tail, key, i) && r == Some(tail[i].id);
      assert entries[i + 1] == tail[i];
      assert IsLastMatch(entries, key, i + 1);
    }
  }

  /** Scanning the same listing twice gives what scanning it once gave. */
  lemma {:induction false} ResolveIdIdempotent(current: Option<string>, entries: seq<Entry>, key: string)
    ensures ResolveId(ResolveId(current, entries, key), entries, key) == ResolveId(current, entries, key)
  {
    var once := ResolveId(current, entries, key);
    if !NoMatch(entries, key) {
      var i :| IsLastMatch(entries, key, i) && once == Some(entries[i].id);
      var k :| IsLastMatch(entries, key, k) && ResolveId(once, entries, key) == Some(entries[k].id);
      LastMatchUnique(entries, key, i, k);
    }
  }

  /** Some update in `reqs` was confirmed by the provider. */
  predicate AnySucceeded(reqs: seq<UpsertRequest>, upsert: Oracle)
  {
    exists q :: q in reqs && upsert(q) == Succeeded
  }

  /** Every update in `reqs` was confirmed by the provider. */
  predicate AllSucceeded(reqs: seq<UpsertRequest>, upsert: Oracle)
  {
    forall q :: q in reqs ==> upsert(q) == Succeeded
  }

  lemma AnySucceededConcat(a: seq<UpsertRequest>, b: seq<UpsertRequest>, upsert: Oracle)
    ensures AnySucceeded(a + b, upsert) <==> AnySucceeded(a, upsert) || AnySucceeded(b, upsert)
  {
    if AnySucceeded(a + b, upsert) {
      var q :| q in a + b && upsert(q) == Succeeded;
    }
    if AnySucceeded(a, upsert) {
      var q :| q in a && upsert(q) == Succeeded;
      assert q in a + b;
    }
    if AnySucceeded(b, upsert) {
      var q :| q in b && upsert(q) == Succeeded;
      assert q in a + b;
    }
  }
}
