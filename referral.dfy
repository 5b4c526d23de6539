/**
 * Referral capture and persistence: the query parameter rule, the write of a
 * record that lives thirty days, and the read that purges a dead record.
 * Browser storage is a map from keys to texts; the current time, in
 * milliseconds since the epoch, is a parameter.
 */
module ReferralStore {
  import opened Wrappers
  import opened RecordText

  type Storage = map<string, string>
  /** The page address's query parameters, each with its first value. */
  type Query = map<string, string>

  const StorageKey: string := "scribeai_referral"
  /** Thirty days in milliseconds: 30 * 24 * 60 * 60 * 1000. */
  const TtlMs: nat := 2_592_000_000

  /** JavaScript truthiness of a string-or-null: present and not empty. */
  predicate Truthy(s: Option<string>) { s.Some? && s.value != "" }

  /** `get('ref') || get('referral')`: `ref` unless it is absent or empty. */
  function QueryReferral(q: Query): (r: Option<string>)
    ensures "ref" in q && q["ref"] != "" ==> r == Some(q["ref"])
    ensures ("ref" !in q || q["ref"] == "") && "referral" in q ==> r == Some(q["referral"])
    ensures Truthy(r) <==> ("ref" in q && q["ref"] != "") || ("referral" in q && q["referral"] != "")
  {
    if "ref" in q && q["ref"] != "" then Some(q["ref"])
    else if "referral" in q then Some(q["referral"])
    else None
  }

  /** The storage after `storeReferralCode` runs at time `now`. */
  function AfterStore(s: Storage, q: Query, now: nat): (r: Storage)
    ensures r - {StorageKey} == s - {StorageKey}
    ensures Truthy(QueryReferral(q)) ==> StorageKey in r
    ensures !Truthy(QueryReferral(q)) ==> r == s
  {
    var code := QueryReferral(q);
    if Truthy(code) then s[StorageKey := Encode(code.value, now + TtlMs)] else s
  }

  /** True when a decoded record is live at `now`: its expiry is a number above `now`. */
  predicate Live(r: Record, now: nat) { r.expiry.Some? && now < r.expiry.value }

  /**
   * `getStoredReferralCode` at time `now`: the code it returns and the storage
   * after it. An empty stored text is falsy and is left alone.
   */
  function ReadStored(s: Storage, now: nat): (r: (Option<string>, Storage))
    ensures r.1 == s || r.1 == s - {StorageKey}
    ensures r.0.Some? ==> r.1 == s
    ensures StorageKey !in s ==> r == (None, s)
  {
    if StorageKey !in s || s[StorageKey] == "" then (None, s)
    else
      match Decode(s[StorageKey])
      case Some(rec) => if Live(rec, now) then (Some(rec.code), s) else (None, s - {StorageKey})
      case None => (None, s - {StorageKey})
  }

  /** Page load: the store at line 81, then the read made while annotating store links. */
  function AfterLoad(s: Storage, q: Query, now: nat): (r: Storage)
    ensures r - {StorageKey} == s - {StorageKey}
    ensures Truthy(QueryReferral(q)) ==> StorageKey in r
  {
    LoadKeepsCode(s, q, now);
    ReadStored(AfterStore(s, q, now), now).1
  }

  /** The read at load finds the code the store at load just wrote, and keeps it. */
  lemma LoadKeepsCode(s: Storage, q: Query, now: nat)
    ensures Truthy(QueryReferral(q)) ==> ReadStored(AfterStore(s, q, now), now) == (QueryReferral(q), AfterStore(s, q, now))
  {
    if Truthy(QueryReferral(q)) {
      StoreThenRead(s, q, now, now);
    }
  }

  /** A code written at `t` reads back unchanged, touching nothing, until `t` plus thirty days. */
  lemma StoreThenRead(s: Storage, q: Query, t: nat, later: nat)
    requires Truthy(QueryReferral(q))
    requires later < t + TtlMs
    ensures ReadStored(AfterStore(s, q, t), later) == (QueryReferral(q), AfterStore(s, q, t))
  {
    var code := QueryReferral(q).value;
    var s1 := AfterStore(s, q, t);
    WrittenRecord(s, q, t);
    ReadDecoded(s, s1[StorageKey], later, Record(code, Some(t + TtlMs)));
    assert s[StorageKey := s1[StorageKey]] == s1;
  }

  /** The text the store writes is non-empty and decodes to the code with expiry `t` plus thirty days. */
  lemma WrittenRecord(s: Storage, q: Query, t: nat)
    requires Truthy(QueryReferral(q))
    ensures StorageKey in AfterStore(s, q, t) && AfterStore(s, q, t)[StorageKey] != ""
    ensures Decode(AfterStore(s, q, t)[StorageKey]) == Some(Record(QueryReferral(q).value, Some(t + TtlMs)))
  {
    DecodeEncode(QueryReferral(q).value, t + TtlMs);
  }

  /** From `t` plus thirty days on, the same record reads as absent and only its key goes. */
  lemma StoreThenReadExpired(s: Storage, q: Query, t: nat, later: nat)
    requires Truthy(QueryReferral(q))
    requires later >= t + TtlMs
    ensures ReadStored(AfterStore(s, q, t), later) == (None, s - {StorageKey})
  {
    var s1 := AfterStore(s, q, t);
    WrittenRecord(s, q, t);
    ReadDecoded(s, s1[StorageKey], later, Record(QueryReferral(q).value, Some(t + TtlMs)));
  }

  /** A decodable record that is not live at `now` reads as absent and its key is removed. */
  lemma DeadRecordPurged(s: Storage, now: nat)
    requires StorageKey in s && s[StorageKey] != ""
    requires Decode(s[StorageKey]).Some? && !Live(Decode(s[StorageKey]).value, now)
    ensures ReadStored(s, now) == (None, s - {StorageKey})
  {
  }

  /**
   * A text that does not decode reads as absent and is removed; a second read,
   * at any time, finds nothing and changes nothing.
   */
  lemma MalformedPurgedOnce(s: Storage, now: nat, later: nat)
    requires StorageKey in s && s[StorageKey] != "" && Decode(s[StorageKey]) == None
    ensures ReadStored(s, now) == (None, s - {StorageKey})
    ensures ReadStored(s - {StorageKey}, later) == (None, s - {StorageKey})
  {
  }

  /** Once a read finds nothing, any second read finds nothing and leaves storage as it is. */
  lemma ReadAbsentLater(s: Storage, now: nat, later: nat)
    requires ReadStored(s, now).0 == None
    ensures ReadStored(ReadStored(s, now).1, later) == (None, ReadStored(s, now).1)
  {
  }

  /** Reading twice at the same time is reading once. */
  lemma ReadIdempotent(s: Storage, now: nat)
    ensures ReadStored(ReadStored(s, now).1, now) == ReadStored(s, now)
  {
  }

  /** A write replaces any earlier record outright: nothing of it is merged or extended. */
  lemma StoreOverwrites(s: Storage, q1: Query, q2: Query, t1: nat, t2: nat)
    requires Truthy(QueryReferral(q2))
    ensures AfterStore(AfterStore(s, q1, t1), q2, t2) == AfterStore(s, q2, t2)
  {
  }

  /** Loading `?ref=C` stores `C` with an expiry thirty days after the load. */
  lemma LoadStoresReferral(s: Storage, q: Query, now: nat)
    requires Truthy(QueryReferral(q))
    ensures StorageKey in AfterLoad(s, q, now)
    ensures Decode(AfterLoad(s, q, now)[StorageKey]) == Some(Record(QueryReferral(q).value, Some(now + TtlMs)))
  {
    DecodeEncode(QueryReferral(q).value, now + TtlMs);
  }

  /** Loading without a referral parameter purges a record that is dead at load time. */
  lemma LoadPurgesDeadRecord(s: Storage, q: Query, now: nat)
    requires !Truthy(QueryReferral(q))
    requires StorageKey in s && s[StorageKey] != ""
    requires Decode(s[StorageKey]).None? || !Live(Decode(s[StorageKey]).value, now)
    ensures AfterLoad(s, q, now) == s - {StorageKey}
  {
  }

  /** The stored record `{code:"X", expiry: now-1000}` reads as absent and disappears. */
  lemma ExpiredScenario(s: Storage, now: nat)
    requires now >= 1000
    ensures var s1 := s[StorageKey := Encode("X", now - 1000)];
      ReadStored(s1, now) == (None, s - {StorageKey}) && StorageKey !in ReadStored(s1, now).1
  {
    ReadEncoded(s, "X", now - 1000, now);
  }

  /** A record written with expiry `e` reads back before `e` and is purged from `e` on. */
  lemma ReadEncoded(s: Storage, code: string, e: nat, now: nat)
    ensures var s1 := s[StorageKey := Encode(code, e)];
      ReadStored(s1, now) == if now < e then (Some(code), s1) else (None, s - {StorageKey})
  {
    DecodeEncode(code, e);
    ReadDecoded(s, Encode(code, e), now, Record(code, Some(e)));
  }

  /** Reading a stored text that decodes to `rec`: the code when `rec` is live, else a purge. */
  lemma ReadDecoded(s: Storage, text: string, now: nat, rec: Record)
    requires text != "" && Decode(text) == Some(rec)
    ensures var s1 := s[StorageKey := text];
      ReadStored(s1, now) == if Live(rec, now) then (Some(rec.code), s1) else (None, s - {StorageKey})
  {
    assert s[StorageKey := text] - {StorageKey} == s - {StorageKey};
  }
}
