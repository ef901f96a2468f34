/**
 The contents of the API key store as values: two maps, from identifier to record and from
 hash to identifier, and what verification makes of them after any history of issued and
 revoked keys.
 */
module KeyHistory {
  import opened Wrappers

  datatype Record = Record(id: string, hash: string, name: string, subject: string, metadata: map<string, string>,
                           createdAt: int, expiresAt: Option<int>, revoked: bool)

  datatype View = View(byID: map<string, Record>, byH: map<string, string>)

  const ID_LENGTH: nat := 16

  const EMPTY := View(map[], map[])

  function SaveTo(v: View, r: Record): View {
    View(v.byID[r.id := r], v.byH[r.hash := r.id])
  }

  function RevokeIn(v: View, id: string): View {
    if id in v.byID then v.(byID := v.byID[id := v.byID[id].(revoked := true)]) else v
  }

  function LookUp(v: View, hash: string): Option<Record> {
    if hash in v.byH && v.byH[hash] in v.byID then Some(v.byID[v.byH[hash]]) else None
  }

  predicate IsExpired(r: Record, now: int) {
    r.expiresAt.Some? && now > r.expiresAt.value
  }

  datatype Outcome = Verified(record: Record) | InvalidKey | RevokedKey | ExpiredKey

  function Judge(r: Record, now: int): Outcome {
    if r.revoked then RevokedKey
    else if IsExpired(r, now) then ExpiredKey
    else Verified(r)
  }

  /** What verifying a plaintext with this hash answers. */
  function Check(v: View, hash: string, now: int): Outcome {
    match LookUp(v, hash)
    case None => InvalidKey
    case Some(r) => if r.hash != hash then InvalidKey else Judge(r, now)
  }

  // ---- Histories ----

  datatype Event = Issued(record: Record) | Revoked(id: string)

  /** Issued records are not revoked and take their identifier from the front of their hash. */
  predicate IsIssuable(r: Record) {
    ID_LENGTH <= |r.hash| && r.id == r.hash[..ID_LENGTH] && !r.revoked
  }

  ghost predicate IsHistory(events: seq<Event>) {
    forall i :: 0 <= i < |events| && events[i].Issued? ==> IsIssuable(events[i].record)
  }

  function Apply(v: View, event: Event): View {
    match event
    case Issued(record) => SaveTo(v, record)
    case Revoked(id) => RevokeIn(v, id)
  }

  function ViewAfter(events: seq<Event>): View {
    if events == [] then EMPTY else Apply(ViewAfter(events[..|events| - 1]), events[|events| - 1])
  }

  /** The two maps agree: every hash leads to its own prefix, and every record is known by its hash. */
  ghost predicate Agrees(v: View) {
    && (forall h :: h in v.byH ==> ID_LENGTH <= |h| && v.byH[h] == h[..ID_LENGTH] && v.byH[h] in v.byID)
    && (forall id :: id in v.byID ==>
          var r := v.byID[id];
          r.id == id && ID_LENGTH <= |r.hash| && id == r.hash[..ID_LENGTH] && r.hash in v.byH)
  }

  lemma {:induction false} MapsAgree(events: seq<Event>)
    requires IsHistory(events)
    ensures Agrees(ViewAfter(events))
  {
    if events != [] {
      MapsAgree(events[..|events| - 1]);
    }
  }

  /** Verification against the identifier map alone. */
  function CheckByID(byID: map<string, Record>, hash: string, now: int): Outcome
    requires ID_LENGTH <= |hash|
  {
    var id := hash[..ID_LENGTH];
    if id in byID && byID[id].hash == hash then Judge(byID[id], now) else InvalidKey
  }

  /** The two maps refine one map from identifier to record, even where identifiers collide. */
  lemma CheckRefinesOneMap(events: seq<Event>, hash: string, now: int)
    requires IsHistory(events) && ID_LENGTH <= |hash|
    ensures Check(ViewAfter(events), hash, now) == CheckByID(ViewAfter(events).byID, hash, now)
  {
    MapsAgree(events);
  }

  /** Event i is the last one that issued a key with this identifier, whatever its hash. */
  ghost predicate IsLastIssue(events: seq<Event>, id: string, i: int) {
    && 0 <= i < |events| && events[i].Issued? && events[i].record.id == id
    && forall j :: i < j < |events| && events[j].Issued? ==> events[j].record.id != id
  }

  ghost predicate RevokedSince(events: seq<Event>, id: string, i: int)
    requires 0 <= i
  {
    exists j :: i < j < |events| && events[j] == Revoked(id)
  }

  lemma LastIssueOfLonger(before: seq<Event>, last: Event, id: string, i: nat)
    requires IsLastIssue(before, id, i) && !(last.Issued? && last.record.id == id)
    ensures IsLastIssue(before + [last], id, i)
    ensures RevokedSince(before + [last], id, i) <==> RevokedSince(before, id, i) || last == Revoked(id)
  {
    var events := before + [last];
    if RevokedSince(before, id, i) {
      var j :| i < j < |before| && before[j] == Revoked(id);
      assert events[j] == Revoked(id);
    }
    if last == Revoked(id) {
      assert events[|before|] == Revoked(id);
    }
  }

  /** The record under an identifier is the last one issued with it, revoked if that has been asked for since. */
  lemma {:induction false} RecordsFollowHistory(events: seq<Event>, id: string)
    requires IsHistory(events)
    ensures var byID := ViewAfter(events).byID;
            if id in byID
            then exists i :: IsLastIssue(events, id, i)
                          && byID[id] == events[i].record.(revoked := RevokedSince(events, id, i))
            else forall i :: !IsLastIssue(events, id, i)
  {
    if events != [] {
      var before, last := events[..|events| - 1], events[|events| - 1];
      assert events == before + [last];
      RecordsFollowHistory(before, id);
      if last.Issued? && last.record.id == id {
        assert IsLastIssue(events, id, |before|);
      } else if id in ViewAfter(before).byID {
        var i :| IsLastIssue(before, id, i)
              && ViewAfter(before).byID[id] == before[i].record.(revoked := RevokedSince(before, id, i));
        LastIssueOfLonger(before, last, id, i);
      } else {
        NeverIssued(before, last, id);
      }
    }
  }

  lemma NeverIssued(before: seq<Event>, last: Event, id: string)
    requires !(last.Issued? && last.record.id == id)
    requires forall i :: !IsLastIssue(before, id, i)
    ensures forall i :: !IsLastIssue(before + [last], id, i)
  {
    var events := before + [last];
    forall i ensures !IsLastIssue(events, id, i) {
      if 0 <= i < |before| {
        assert !IsLastIssue(before, id, i);
        assert before[i] == events[i];
        assert forall j :: i < j < |before| ==> events[j] == before[j];
      }
    }
  }

  /**
   A key verifies if and only if its own issue is the last one with its identifier, the
   identifier has not been revoked since, and the key has not expired.
   */
  lemma VerifiedExactly(events: seq<Event>, hash: string, now: int)
    requires IsHistory(events) && ID_LENGTH <= |hash|
    ensures var id := hash[..ID_LENGTH];
            Check(ViewAfter(events), hash, now).Verified? <==>
            exists i :: IsLastIssue(events, id, i) && events[i].record.hash == hash
                     && !RevokedSince(events, id, i) && !IsExpired(events[i].record, now)
  {
    hide RevokedSince;
    var id := hash[..ID_LENGTH];
    CheckRefinesOneMap(events, hash, now);
    RecordsFollowHistory(events, id);
  }

  /**
   The answer for every hash after any history: invalid unless its own issue is the last
   with its prefix; then revoked if the prefix was revoked since, else expired from the
   first instant after its expiry on, and otherwise the record as it was issued.
   */
  lemma OutcomeExactly(events: seq<Event>, hash: string, now: int)
    requires IsHistory(events) && 16 <= |hash|
    ensures forall i :: IsLastIssue(events, hash[..16], i) && events[i].record.hash == hash ==>
              var record := events[i].record;
              Check(ViewAfter(events), hash, now) ==
              if RevokedSince(events, hash[..16], i) then RevokedKey
              else if record.expiresAt.Some? && record.expiresAt.value < now then ExpiredKey
              else Verified(record)
    ensures (forall i :: IsLastIssue(events, hash[..16], i) ==> events[i].record.hash != hash) ==>
              Check(ViewAfter(events), hash, now) == InvalidKey
  {
    hide RevokedSince, ViewAfter;
    var id := hash[..16];
    CheckRefinesOneMap(events, hash, now);
    RecordsFollowHistory(events, id);
    var byID := ViewAfter(events).byID;
    if id in byID {
      var k :| IsLastIssue(events, id, k) && byID[id] == events[k].record.(revoked := RevokedSince(events, id, k));
      assert forall i :: IsLastIssue(events, id, i) ==> i == k;
      assert IsIssuable(events[k].record);
    }
  }

  /** A key verifies from its issue to the last instant of its lifetime, in any store; without a lifetime for ever. */
  lemma LifetimeExactly(v: View, r: Record, issued: int, lifetime: int, now: int)
    requires !r.revoked && r.expiresAt == if lifetime > 0 then Some(issued + lifetime) else None
    ensures Check(SaveTo(v, r), r.hash, now) ==
            if lifetime > 0 && now > issued + lifetime then ExpiredKey else Verified(r)
  {
  }

  /**
   What issuing one more key does to the verification of any hash: nothing if the prefixes
   differ; otherwise only the new key's own hash verifies from then on.
   */
  lemma IssueReplacesPrefix(events: seq<Event>, r: Record, hash: string, now: int)
    requires IsHistory(events) && IsIssuable(r) && ID_LENGTH <= |hash|
    ensures Check(ViewAfter(events + [Issued(r)]), hash, now) ==
            if r.id != hash[..ID_LENGTH] then Check(ViewAfter(events), hash, now)
            else if r.hash != hash then InvalidKey
            else Judge(r, now)
  {
    var longer := events + [Issued(r)];
    assert longer[..|longer| - 1] == events;
    CheckRefinesOneMap(events, hash, now);
    CheckRefinesOneMap(longer, hash, now);
  }

  /**
   Once a key has been revoked it never verifies again, whatever is issued or revoked
   later, unless the very same hash is issued again.
   */
  lemma RevocationIsPermanent(events: seq<Event>, i: nat, hash: string, now: int)
    requires IsHistory(events) && i < |events| && ID_LENGTH <= |hash|
    requires events[i] == Revoked(hash[..ID_LENGTH])
    requires forall j :: i < j < |events| && events[j].Issued? ==> events[j].record.hash != hash
    ensures !Check(ViewAfter(events), hash, now).Verified?
  {
    var id := hash[..ID_LENGTH];
    VerifiedExactly(events, hash, now);
    forall k | IsLastIssue(events, id, k) && events[k].record.hash == hash ensures RevokedSince(events, id, k) {
      assert k < i < |events| && events[i] == Revoked(id);
    }
  }
}
