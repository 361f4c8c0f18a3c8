/** Reuse of a stored ranking (app.py, the check made before any resume is
    processed). */
module Cache {
  import opened Wrappers

  /** A resume record as the document store holds it. */
  datatype StoredResume = StoredResume(name: Option<string>, email: Option<string>, url: Option<string>)

  /** One entry of a ranking as returned and stored. */
  datatype RankedResume = RankedResume(
    name: Option<string>,
    email: Option<string>,
    skills: set<string>,
    quals: set<string>,
    experience: string,
    requirement: string,
    url: string,
    score: real,
    rank: nat)

  /** Python truthiness of an optional string: present and non-empty. */
  predicate Truthy(s: Option<string>) {
    s.Some? && s.value != ""
  }

  /** `{r.get("email") for r in records if r.get("email")}`, for any kind
      of record with an e-mail field read by `email`. */
  function EmailsOf<T>(records: seq<T>, email: T -> Option<string>): (r: set<string>)
    ensures forall x :: x in r <==> exists i :: 0 <= i < |records| && email(records[i]) == Some(x) && x != ""
  {
    var r := set i | 0 <= i < |records| && Truthy(email(records[i])) :: email(records[i]).value;
    assert forall x :: x in r ==> exists i :: 0 <= i < |records| && email(records[i]) == Some(x) && x != "";
    r
  }

  function StoredEmail(r: StoredResume): Option<string> { r.email }

  function RankedEmail(r: RankedResume): Option<string> { r.email }

  /** The e-mails of the current pool. */
  function PoolEmails(pool: seq<StoredResume>): (r: set<string>)
    ensures forall x :: x in r <==> exists i :: 0 <= i < |pool| && pool[i].email == Some(x) && x != ""
  {
    EmailsOf(pool, StoredEmail)
  }

  /** The e-mails of a stored ranking. */
  function RankedEmails(ranked: seq<RankedResume>): (r: set<string>)
    ensures forall x :: x in r <==> exists i :: 0 <= i < |ranked| && ranked[i].email == Some(x) && x != ""
  {
    EmailsOf(ranked, RankedEmail)
  }

  datatype Decision = Reuse(ranked: seq<RankedResume>) | Recompute

  /** The stored ranking is returned verbatim exactly when one exists and
      the non-empty emails in it are the non-empty emails of the current
      pool, compared as sets. */
  function CacheGate(cached: Option<seq<RankedResume>>, pool: seq<StoredResume>): (d: Decision)
    ensures d.Reuse? <==> (cached.Some? &&
      forall x :: ((exists i :: 0 <= i < |cached.value| && cached.value[i].email == Some(x) && x != "")
                   <==> (exists j :: 0 <= j < |pool| && pool[j].email == Some(x) && x != "")))
    ensures d.Reuse? ==> d.ranked == cached.value
  {
    if cached.Some? && RankedEmails(cached.value) == PoolEmails(pool) then Reuse(cached.value)
    else Recompute
  }

  /** Order and repetition in the pool do not matter. */
  lemma PoolOrderIgnored(cached: Option<seq<RankedResume>>, p: seq<StoredResume>, q: seq<StoredResume>)
    requires forall r :: r in p <==> r in q
    ensures CacheGate(cached, p) == CacheGate(cached, q)
  {
    assert PoolEmails(p) == PoolEmails(q) by {
      forall x | x in PoolEmails(p)
        ensures x in PoolEmails(q)
      {
        var i :| 0 <= i < |p| && p[i].email == Some(x) && x != "";
        assert p[i] in q;
        var j :| 0 <= j < |q| && q[j] == p[i];
      }
      forall x | x in PoolEmails(q)
        ensures x in PoolEmails(p)
      {
        var j :| 0 <= j < |q| && q[j].email == Some(x) && x != "";
        assert q[j] in p;
        var i :| 0 <= i < |p| && p[i] == q[j];
      }
    }
  }

  /** A resume without an email, or with an empty one, never changes the decision. */
  lemma EmaillessIgnored(cached: Option<seq<RankedResume>>, pool: seq<StoredResume>, r: StoredResume)
    requires !Truthy(r.email)
    ensures CacheGate(cached, pool + [r]) == CacheGate(cached, pool)
  {
    var p := pool + [r];
    assert PoolEmails(p) == PoolEmails(pool) by {
      forall x | x in PoolEmails(p)
        ensures x in PoolEmails(pool)
      {
        var i :| 0 <= i < |p| && p[i].email == Some(x) && x != "";
        assert i < |pool|;
        assert pool[i] == p[i];
      }
      forall x | x in PoolEmails(pool)
        ensures x in PoolEmails(p)
      {
        var i :| 0 <= i < |pool| && pool[i].email == Some(x) && x != "";
        assert p[i] == pool[i];
      }
    }
  }

  /** A new email in the pool forces recomputation. */
  lemma NewEmailRecomputes(cached: Option<seq<RankedResume>>, pool: seq<StoredResume>, i: nat)
    requires i < |pool| && Truthy(pool[i].email)
    requires cached.Some? ==> pool[i].email.value !in RankedEmails(cached.value)
    ensures CacheGate(cached, pool) == Recompute
  {
    assert pool[i].email.value in PoolEmails(pool);
  }

  /** A stored empty ranking is reused for a pool where no resume has an email. */
  lemma EmptyRankingReusedForEmaillessPool(pool: seq<StoredResume>)
    requires forall i :: 0 <= i < |pool| ==> !Truthy(pool[i].email)
    ensures CacheGate(Some([]), pool) == Reuse([])
  {
    assert PoolEmails(pool) == {};
    assert RankedEmails([]) == {};
  }
}
