/**
 The API key store and service as objects. Keys are mutable records on the heap: the store
 keeps its own copies and hands out copies, so what callers do to theirs never reaches it.
 */
module ApiKey {
  import opened Wrappers
  import opened KeyHistory

  class Key {
    var id: string
    var hash: string
    var name: string
    var subject: string
    var metadata: map<string, string>
    var createdAt: int
    var expiresAt: Option<int>
    var revoked: bool

    function Value(): Record
      reads this
    {
      Record(id, hash, name, subject, metadata, createdAt, expiresAt, revoked)
    }

    constructor (r: Record)
      ensures Value() == r
      ensures id == r.id && hash == r.hash && name == r.name && subject == r.subject
      ensures metadata == r.metadata && createdAt == r.createdAt && expiresAt == r.expiresAt && revoked == r.revoked
    {
      id, hash, name, subject := r.id, r.hash, r.name, r.subject;
      metadata, createdAt, expiresAt, revoked := r.metadata, r.createdAt, r.expiresAt, r.revoked;
    }

    method Clone() returns (clone: Key)
      ensures fresh(clone) && clone.Value() == Value()
      ensures clone.id == id && clone.hash == hash && clone.name == name && clone.subject == subject
      ensures clone.metadata == metadata && clone.createdAt == createdAt
      ensures clone.expiresAt == expiresAt && clone.revoked == revoked
    {
      clone := new Key(Value());
    }

    predicate HasExpired(now: int)
      reads this
    {
      expiresAt.Some? && now > expiresAt.value
    }
  }

  class MemoryStore {
    var byID: map<string, Key>
    var byH: map<string, string>

    /** Identifiers do not share records, and each record carries the identifier it is stored under. */
    ghost predicate Valid()
      reads this, byID.Values
    {
      && (forall i :: i in byID ==> byID[i].id == i)
    }

    ghost function Contents(): View
      reads this, byID.Values
    {
      View(map i | i in byID :: byID[i].Value(), byH)
    }

    constructor ()
      ensures Valid() && Contents() == EMPTY && byID == map[]
    {
      byID, byH := map[], map[];
    }

    method Save(k: Key)
      requires Valid()
      modifies this
      ensures Valid() && fresh(byID.Values - old(byID.Values))
      ensures Contents() == SaveTo(old(Contents()), k.Value())
    {
      var clone := k.Clone();
      hide Key.Value;
      ghost var was := Contents();
      byID := byID[k.id := clone];
      byH := byH[k.hash := k.id];
      assert Contents().byID == was.byID[k.id := k.Value()];
    }

    method GetByID(id: string) returns (k: Option<Key>)
      ensures if id in byID then k.Some? && fresh(k.value) && k.value.Value() == Contents().byID[id] else k.None?
    {
      if id !in byID {
        return None;
      }
      var clone := byID[id].Clone();
      return Some(clone);
    }

    method GetByHash(hash: string) returns (k: Option<Key>)
      ensures match LookUp(Contents(), hash)
              case None => k.None?
              case Some(r) => k.Some? && fresh(k.value) && k.value.Value() == r
    {
      if hash !in byH {
        return None;
      }
      k := GetByID(byH[hash]);
    }

    method Revoke(id: string) returns (found: bool)
      requires Valid()
      modifies byID.Values
      ensures Valid()
      ensures found <==> id in byID
      ensures Contents() == RevokeIn(old(Contents()), id)
    {
      if id !in byID {
        return false;
      }
      var k := byID[id];
      assert forall i :: i in byID && i != id ==> byID[i] != k;
      k.revoked := true;
      return true;
    }

    /** One copy of each of the subject's keys, in the order the map happens to be walked. */
    method ListBySubject(subject: string) returns (out: seq<Key>)
      requires Valid()
      ensures forall i :: 0 <= i < |out| ==>
                && fresh(out[i]) && out[i].id in byID
                && out[i].Value() == Contents().byID[out[i].id] && out[i].subject == subject
      ensures forall i, j :: 0 <= i < j < |out| ==> out[i].id != out[j].id
      ensures forall id :: id in byID && byID[id].subject == subject ==> exists i :: 0 <= i < |out| && out[i].id == id
    {
      out := [];
      var left := byID.Keys;
      while left != {}
        invariant left <= byID.Keys
        invariant forall i :: 0 <= i < |out| ==>
                    && fresh(out[i]) && out[i].id in byID && out[i].id !in left
                    && out[i].Value() == Contents().byID[out[i].id] && out[i].subject == subject
        invariant forall i, j :: 0 <= i < j < |out| ==> out[i].id != out[j].id
        invariant forall id :: id in byID && id !in left && byID[id].subject == subject ==>
                    exists i :: 0 <= i < |out| && out[i].id == id
        decreases left
      {
        var id :| id in left;
        left := left - {id};
        if byID[id].subject == subject {
          ghost var before := out;
          var clone := byID[id].Clone();
          out := out + [clone];
          assert out[|before|].id == id;
          assert forall i :: 0 <= i < |before| ==> out[i] == before[i];
        }
      }
    }
  }

  /** SHA-256 in hexadecimal. */
  type Digest = string -> string

  ghost predicate Hex64(digest: Digest) {
    forall plaintext :: |digest(plaintext)| == 64
  }

  datatype IssueOptions = IssueOptions(prefix: string, name: string, subject: string,
                                       metadata: map<string, string>, expiresIn: int)

  datatype Error = InvalidKeyError | RevokedKeyError | ExpiredKeyError

  class Service {
    const store: MemoryStore
    const digest: Digest

    constructor (store: MemoryStore, digest: Digest)
      ensures this.store == store && this.digest == digest
    {
      this.store, this.digest := store, digest;
    }

    /** The random part is an input, and so are the two readings of the clock. */
    method Issue(opts: IssueOptions, random: string, created: int, now: int) returns (plaintext: string, k: Key)
      requires store.Valid() && Hex64(digest)
      modifies store
      ensures store.Valid() && fresh(store.byID.Values - old(store.byID.Values))
      ensures plaintext == if opts.prefix != "" then opts.prefix + "_" + random else random
      ensures fresh(k) && k !in store.byID.Values
      ensures IsIssuable(k.Value()) && k.hash == digest(plaintext) && k.id == k.hash[..16] && !k.revoked
      ensures k.name == opts.name && k.subject == opts.subject && k.metadata == opts.metadata && k.createdAt == created
      ensures k.expiresAt == if opts.expiresIn > 0 then Some(now + opts.expiresIn) else None
      ensures store.Contents() == Apply(old(store.Contents()), Issued(k.Value()))
    {
      hide SaveTo, MemoryStore.Contents;
      plaintext := random;
      if opts.prefix != "" {
        plaintext := opts.prefix + "_" + random;
      }
      var hash := digest(plaintext);
      k := new Key(Record(hash[..16], hash, opts.name, opts.subject, opts.metadata, created, None, false));
      if opts.expiresIn > 0 {
        k.expiresAt := Some(now + opts.expiresIn);
      }
      store.Save(k);
    }

    method Verify(plaintext: string, now: int) returns (r: Result<Key, Error>)
      ensures match Check(store.Contents(), digest(plaintext), now)
              case Verified(record) => r.Ok? && fresh(r.value) && r.value.Value() == record
              case InvalidKey => r == Err(InvalidKeyError)
              case RevokedKey => r == Err(RevokedKeyError)
              case ExpiredKey => r == Err(ExpiredKeyError)
    {
      var hash := digest(plaintext);
      var k := store.GetByHash(hash);
      if k.None? {
        return Err(InvalidKeyError);
      }
      if k.value.hash != hash {
        return Err(InvalidKeyError);
      }
      if k.value.revoked {
        return Err(RevokedKeyError);
      }
      if k.value.HasExpired(now) {
        return Err(ExpiredKeyError);
      }
      return Ok(k.value);
    }

    method Revoke(id: string) returns (found: bool)
      requires store.Valid()
      modifies store.byID.Values
      ensures store.Valid()
      ensures found <==> id in store.byID
      ensures store.Contents() == Apply(old(store.Contents()), Revoked(id))
    {
      found := store.Revoke(id);
    }
  }

  /** Whatever a caller writes into the fields of a key that Verify returned, the store's contents stay what they were. */
  method ScribbleOnVerifiedKey(service: Service, plaintext: string, now: int, scribble: Record)
    requires service.store.Valid()
    ensures service.store.Valid() && service.store.Contents() == old(service.store.Contents())
  {
    hide MemoryStore.Contents, MemoryStore.Valid, Check;
    var r := service.Verify(plaintext, now);
    if r.Ok? {
      var k := r.value;
      k.id, k.hash, k.name, k.subject := scribble.id, scribble.hash, scribble.name, scribble.subject;
      k.metadata, k.createdAt := scribble.metadata, scribble.createdAt;
      k.expiresAt, k.revoked := scribble.expiresAt, scribble.revoked;
    }
  }

  /**
   A key verifies, with everything it was issued with, up to the last instant of its
   lifetime, and from then on is told to have expired.
   */
  method IssueThenVerify(service: Service, opts: IssueOptions, random: string, created: int, issued: int, now: int)
    returns (r: Result<Key, Error>)
    requires service.store.Valid() && Hex64(service.digest)
    modifies service.store
    ensures if opts.expiresIn > 0 && now > issued + opts.expiresIn then r == Err(ExpiredKeyError)
            else
              && r.Ok? && fresh(r.value)
              && r.value.name == opts.name && r.value.subject == opts.subject && r.value.metadata == opts.metadata
              && r.value.createdAt == created
              && r.value.expiresAt == (if opts.expiresIn > 0 then Some(issued + opts.expiresIn) else None)
  {
    hide MemoryStore.Contents, MemoryStore.Valid, Check, SaveTo;
    ghost var before := service.store.Contents();
    var plaintext, k := service.Issue(opts, random, created, issued);
    LifetimeExactly(before, k.Value(), issued, opts.expiresIn, now);
    r := service.Verify(plaintext, now);
  }
}
