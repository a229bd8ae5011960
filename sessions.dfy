/**
 * The refresh-session table and the two rules the session service enforces on
 * it: the per-user cap on active sessions (oldest evicted first) and the sweep
 * of expired sessions. Rows are kept in table order; "first match" scans and
 * ties between equal creation times follow that order.
 */
module Sessions {
  import opened Wrappers
  import opened Tables
  import opened Settings
  import opened Schemas

  /** One refresh grant: the stored hash of a refresh token and its client. */
  datatype Session = Session(
    id: nat,
    userId: nat,
    refreshToken: string,
    fingerprint: string,
    userAgent: Option<string>,
    ip: string,
    expiresAt: int,
    createdAt: int)

  /** The columns a rotation overwrites. */
  datatype SessionUpdate = SessionUpdate(
    refreshToken: string,
    expiresAt: int,
    userAgent: Option<string>,
    fingerprint: string,
    ip: string)

  /** The columns supplied when a session is created. */
  datatype SessionCreate = SessionCreate(
    refreshToken: string,
    expiresAt: int,
    userAgent: Option<string>,
    fingerprint: string,
    ip: string,
    userId: nat)

  function Applied(s: Session, u: SessionUpdate): Session {
    s.(refreshToken := u.refreshToken, expiresAt := u.expiresAt, userAgent := u.userAgent,
       fingerprint := u.fingerprint, ip := u.ip)
  }

  // Row predicates used as WHERE clauses.

  /** `user_id == user_id`; the id compared may be any integer a request carries. */
  function OwnedBy(userId: int): Session -> bool {
    (s: Session) => s.userId == userId
  }

  /** `user_id == user_id AND expires_at > now`: the sessions the cap counts. */
  function ActiveFor(userId: nat, now: int): Session -> bool {
    (s: Session) => s.userId == userId && s.expiresAt > now
  }

  /** `expires_at < now`: the sessions the sweep deletes. */
  function ExpiredAt(now: int): Session -> bool {
    (s: Session) => s.expiresAt < now
  }

  function IdIn(ids: set<nat>): Session -> bool {
    (s: Session) => s.id in ids
  }

  /** The primary keys occurring in a list of rows. */
  function Ids(ss: seq<Session>): (r: set<nat>)
    ensures forall i :: 0 <= i < |ss| ==> ss[i].id in r
    ensures forall x :: x in r ==> exists i :: 0 <= i < |ss| && ss[i].id == x
  {
    set i | 0 <= i < |ss| :: ss[i].id
  }

  predicate UniqueIds(ss: seq<Session>) {
    forall i, j :: 0 <= i < j < |ss| ==> ss[i].id != ss[j].id
  }

  lemma IdsOfMembers(a: seq<Session>, b: seq<Session>)
    requires forall s :: s in a ==> s in b
    ensures Ids(a) <= Ids(b)
  {
    forall x | x in Ids(a) ensures x in Ids(b) {
      var i :| 0 <= i < |a| && a[i].id == x;
      assert a[i] in a;
      var j :| 0 <= j < |b| && b[j] == a[i];
    }
  }

  /** `update(item_id=id, data=u)`: the row with that id takes the new columns. */
  function Rotated(rows: seq<Session>, id: nat, u: SessionUpdate): (r: seq<Session>)
    ensures |r| == |rows|
    ensures forall i :: 0 <= i < |rows| ==> r[i].id == rows[i].id && r[i].userId == rows[i].userId
    ensures forall i :: 0 <= i < |rows| && rows[i].id != id ==> r[i] == rows[i]
  {
    seq(|rows|, i requires 0 <= i < |rows| => if rows[i].id == id then Applied(rows[i], u) else rows[i])
  }

  // ---------------------------------------------------------------------------
  // Identity of rows

  lemma SameIdSameRow(rows: seq<Session>, a: Session, b: Session)
    requires UniqueIds(rows) && a in rows && b in rows && a.id == b.id
    ensures a == b
  {
  }

  lemma {:induction false} FilterUnique(rows: seq<Session>, p: Session -> bool)
    requires UniqueIds(rows)
    ensures UniqueIds(Filter(rows, p))
  {
    if |rows| > 0 {
      FilterUnique(rows[1..], p);
      var rest := Filter(rows[1..], p);
      if p(rows[0]) {
        FilterMembers(rows[1..], p);
        forall j | 0 <= j < |rest| ensures rest[j].id != rows[0].id {
          assert rest[j] in rows[1..];
        }
      }
    }
  }

  /** With distinct ids there are as many ids as rows. */
  lemma {:induction false} UniqueIdsCard(ss: seq<Session>)
    requires UniqueIds(ss)
    ensures |Ids(ss)| == |ss|
  {
    if |ss| > 0 {
      var rest := ss[1..];
      UniqueIdsCard(rest);
      assert Ids(ss) == {ss[0].id} + Ids(rest) by { IdsHeadTail(ss); }
      assert ss[0].id !in Ids(rest) by {
        forall j | 0 <= j < |rest| ensures rest[j].id != ss[0].id {
          assert rest[j] == ss[j + 1];
        }
      }
      CardAddFresh(ss[0].id, Ids(rest), Ids(rest), Ids(ss));
    } else {
      assert Ids(ss) == {};
    }
  }

  lemma IdsHeadTail(ss: seq<Session>)
    requires |ss| > 0
    ensures Ids(ss) == {ss[0].id} + Ids(ss[1..])
  {
    var t := ss[1..];
    forall y | y in Ids(t) ensures y in Ids(ss) {
      var i :| 0 <= i < |t| && t[i].id == y;
      assert ss[i + 1] == t[i];
    }
    forall y | y in Ids(ss) ensures y in {ss[0].id} + Ids(t) {
      var i :| 0 <= i < |ss| && ss[i].id == y;
      if i > 0 { assert ss[i] == t[i - 1]; }
    }
  }

  lemma CardAddFresh(x: nat, t: set<nat>, u: set<nat>, a: set<nat>)
    requires a == {x} + t && t <= u && x !in u
    ensures |a| == |t| + 1
  {
    assert a == t + {x};
  }

  lemma CardSplit(x: nat, t: set<nat>, n: nat)
    requires |{x} + t| == n + 1 && |t| <= n
    ensures x !in t && |t| == n
  {
    assert x in t ==> {x} + t == t;
    assert x !in t ==> {x} + t == t + {x};
  }

  /** There are never more ids than rows. */
  lemma {:induction false} IdsCardBound(ss: seq<Session>)
    ensures |Ids(ss)| <= |ss|
  {
    if |ss| == 0 {
      assert Ids(ss) == {};
    } else {
      IdsCardBound(ss[1..]);
      IdsHeadTail(ss);
      assert |{ss[0].id} + Ids(ss[1..])| <= |Ids(ss[1..])| + 1;
    }
  }

  /**
   * Deleting by a set of ids that all occur in a table with distinct ids
   * removes exactly that many rows.
   */
  lemma RemoveIdsCount(rows: seq<Session>, ids: set<nat>)
    requires UniqueIds(rows) && ids <= Ids(rows)
    ensures |Filter(rows, Not(IdIn(ids)))| == |rows| - |ids|
  {
    var kept := Filter(rows, Not(IdIn(ids)));
    FilterUnique(rows, Not(IdIn(ids)));
    UniqueIdsCard(rows);
    UniqueIdsCard(kept);
    IdsOfRemoval(rows, ids);
    assert Ids(rows) == Ids(kept) + ids;
    assert Ids(kept) !! ids;
  }

  lemma IdsOfRemoval(rows: seq<Session>, ids: set<nat>)
    ensures Ids(Filter(rows, Not(IdIn(ids)))) == Ids(rows) - ids
  {
    var kept := Filter(rows, Not(IdIn(ids)));
    FilterMembers(rows, Not(IdIn(ids)));
    forall x | x in Ids(rows) - ids ensures x in Ids(kept) {
      var i :| 0 <= i < |rows| && rows[i].id == x;
      assert Not(IdIn(ids))(rows[i]);
      assert rows[i] in kept;
      var j :| 0 <= j < |kept| && kept[j] == rows[i];
    }
    forall x | x in Ids(kept) ensures x in Ids(rows) - ids {
      var j :| 0 <= j < |kept| && kept[j].id == x;
      assert kept[j] in kept;
      var i :| 0 <= i < |rows| && rows[i] == kept[j];
    }
  }

  /** `delete(item_id=rows[i].id)` removes row i and nothing else. */
  lemma DeleteByIdRemovesRow(rows: seq<Session>, i: nat)
    requires UniqueIds(rows) && i < |rows|
    ensures var after := Filter(rows, Not(IdIn({rows[i].id})));
            && rows[i] !in after
            && (forall s :: s in rows && s != rows[i] ==> s in after)
            && |after| == |rows| - 1
  {
    var ids := {rows[i].id};
    FilterMembers(rows, Not(IdIn(ids)));
    forall s | s in rows && s != rows[i] ensures s.id !in ids {
      if s.id == rows[i].id {
        SameIdSameRow(rows, s, rows[i]);
      }
    }
    assert ids <= Ids(rows);
    RemoveIdsCount(rows, ids);
  }

  /** `update(item_id=rows[i].id, ...)` changes row i and nothing else. */
  lemma RotatedAt(rows: seq<Session>, i: nat, u: SessionUpdate)
    requires UniqueIds(rows) && i < |rows|
    ensures Rotated(rows, rows[i].id, u) == rows[i := Applied(rows[i], u)]
  {
  }

  // ---------------------------------------------------------------------------
  // First match

  /**
   * Index of the first session whose stored hash verifies the presented raw
   * token, scanning in list order.
   */
  function FirstMatch(ss: seq<Session>, verify: (string, string) -> bool, raw: Option<string>): (r: Option<nat>)
    ensures r.Some? ==> r.value < |ss| && VerifyRefreshToken(verify, raw, ss[r.value].refreshToken)
    ensures r.Some? ==> forall j :: 0 <= j < r.value ==> !VerifyRefreshToken(verify, raw, ss[j].refreshToken)
    ensures r.None? <==> forall j :: 0 <= j < |ss| ==> !VerifyRefreshToken(verify, raw, ss[j].refreshToken)
  {
    if |ss| == 0 then None
    else if VerifyRefreshToken(verify, raw, ss[0].refreshToken) then Some(0)
    else
      match FirstMatch(ss[1..], verify, raw)
      case None => None
      case Some(k) => Some(k + 1)
  }

  /** A token that verifies some row of the list is found by the scan. */
  lemma FirstMatchFinds(ss: seq<Session>, verify: (string, string) -> bool, raw: Option<string>, s: Session)
    requires s in ss && VerifyRefreshToken(verify, raw, s.refreshToken)
    ensures FirstMatch(ss, verify, raw).Some?
  {
    var j :| 0 <= j < |ss| && ss[j] == s;
  }

  // ---------------------------------------------------------------------------
  // Oldest-first eviction

  /** Index of the first session with the smallest creation time. */
  function FirstOldest(ss: seq<Session>): (m: nat)
    requires |ss| > 0
    ensures m < |ss|
  {
    if |ss| == 1 then 0
    else
      var m := FirstOldest(ss[1..]) + 1;
      if ss[0].createdAt <= ss[m].createdAt then 0 else m
  }

  /** The session `FirstOldest` picks is no newer than any, and strictly older than those before it. */
  lemma {:induction false} FirstOldestIsOldest(ss: seq<Session>)
    requires |ss| > 0
    ensures var m := FirstOldest(ss);
            && (forall j :: 0 <= j < |ss| ==> ss[m].createdAt <= ss[j].createdAt)
            && (forall j :: 0 <= j < m ==> ss[j].createdAt > ss[m].createdAt)
  {
    if |ss| > 1 {
      FirstOldestIsOldest(ss[1..]);
    }
  }

  function RemoveAt(ss: seq<Session>, m: nat): (r: seq<Session>)
    requires m < |ss|
    ensures |r| == |ss| - 1
  {
    ss[..m] + ss[m + 1..]
  }

  lemma RemoveAtMembers(ss: seq<Session>, m: nat)
    requires m < |ss|
    ensures forall s :: s in RemoveAt(ss, m) ==> s in ss
    ensures forall s :: s in ss && s != ss[m] ==> s in RemoveAt(ss, m)
  {
    var r := RemoveAt(ss, m);
    forall s | s in ss && s != ss[m] ensures s in r {
      var j :| 0 <= j < |ss| && ss[j] == s;
      if j < m { assert r[j] == s; } else { assert r[j - 1] == s; }
    }
  }

  lemma RemoveAtIds(ss: seq<Session>, m: nat)
    requires m < |ss|
    ensures Ids(ss) == {ss[m].id} + Ids(RemoveAt(ss, m))
  {
    var r := RemoveAt(ss, m);
    forall y | y in Ids(ss) ensures y in {ss[m].id} + Ids(r) {
      var j :| 0 <= j < |ss| && ss[j].id == y;
      if j < m { assert r[j] == ss[j]; } else if j > m { assert r[j - 1] == ss[j]; }
    }
    forall y | y in Ids(r) ensures y in Ids(ss) {
      var j :| 0 <= j < |r| && r[j].id == y;
      var j' := if j < m then j else j + 1;
      assert r[j] == ss[j'];
    }
  }

  /** With as many ids as rows, the removed row's id is not left behind. */
  lemma RemoveAtFresh(ss: seq<Session>, m: nat)
    requires m < |ss| && |Ids(ss)| == |ss|
    ensures ss[m].id !in Ids(RemoveAt(ss, m)) && |Ids(RemoveAt(ss, m))| == |ss| - 1
  {
    var rest := RemoveAt(ss, m);
    RemoveAtIds(ss, m);
    IdsCardBound(rest);
    CardSplit(ss[m].id, Ids(rest), |rest|);
  }

  lemma RemoveAtUnique(ss: seq<Session>, m: nat)
    requires m < |ss| && UniqueIds(ss)
    ensures UniqueIds(RemoveAt(ss, m))
    ensures ss[m].id !in Ids(RemoveAt(ss, m))
  {
    var r := RemoveAt(ss, m);
    forall i, j | 0 <= i < j < |r| ensures r[i].id != r[j].id {
      var i' := if i < m then i else i + 1;
      var j' := if j < m then j else j + 1;
      assert r[i] == ss[i'] && r[j] == ss[j'];
    }
    forall j | 0 <= j < |r| ensures r[j].id != ss[m].id {
      var j' := if j < m then j else j + 1;
      assert r[j] == ss[j'];
    }
  }

  /** A row other than the removed one moves down by one place if it was after it. */
  lemma RemoveAtIndex(ss: seq<Session>, m: nat, j: nat)
    requires m < |ss| && j < |ss| && j != m
    ensures var j' := if j < m then j else j - 1;
            j' < |RemoveAt(ss, m)| && RemoveAt(ss, m)[j'] == ss[j]
  {
  }

  /**
   * The first k sessions of a stable sort by creation time
   * (`sorted(ss, key=created_at)[:k]`), taken one oldest row at a time.
   */
  function Oldest(ss: seq<Session>, k: nat): (e: seq<Session>)
    requires k <= |ss|
    ensures |e| == k
    decreases k
  {
    if k == 0 then []
    else
      var m := FirstOldest(ss);
      [ss[m]] + Oldest(RemoveAt(ss, m), k - 1)
  }

  /** The sessions selected for eviction are sessions of the list. */
  lemma {:induction false} OldestMembers(ss: seq<Session>, k: nat)
    requires k <= |ss|
    ensures forall s :: s in Oldest(ss, k) ==> s in ss
    decreases k
  {
    if k > 0 {
      var m := FirstOldest(ss);
      var j: nat := k - 1;
      OldestMembers(RemoveAt(ss, m), j);
      RemoveAtMembers(ss, m);
    }
  }

  lemma IdsCons(x: Session, t: seq<Session>)
    ensures Ids([x] + t) == {x.id} + Ids(t)
  {
    var c := [x] + t;
    assert c[0] == x;
    forall y | y in Ids(t) ensures y in Ids(c) {
      var i :| 0 <= i < |t| && t[i].id == y;
      assert c[i + 1] == t[i];
    }
    forall y | y in Ids(c) ensures y in {x.id} + Ids(t) {
      var i :| 0 <= i < |c| && c[i].id == y;
      if i > 0 { assert c[i] == t[i - 1]; }
    }
  }

  /** The ids of the evicted sessions are ids of the list. */
  lemma OldestIdsWithin(ss: seq<Session>, k: nat)
    requires k <= |ss|
    ensures Ids(Oldest(ss, k)) <= Ids(ss)
  {
    OldestMembers(ss, k);
    IdsOfMembers(Oldest(ss, k), ss);
  }

  /** Unfolding one selection step on the ids. */
  lemma OldestIdsUnfold(ss: seq<Session>, k: nat, m: nat, rest: seq<Session>)
    requires 0 < k <= |ss| && m == FirstOldest(ss) && rest == RemoveAt(ss, m)
    ensures Ids(Oldest(ss, k)) == {ss[m].id} + Ids(Oldest(rest, k - 1))
  {
    var e' := Oldest(rest, k - 1);
    assert Oldest(ss, k) == [ss[m]] + e';
    IdsCons(ss[m], e');
  }

  /**
   * One selection step: when the oldest session's id is not among the ids of
   * the rest, selecting it adds exactly one id to those selected from the rest.
   */
  lemma OldestIdsStep(ss: seq<Session>, k: nat, m: nat, rest: seq<Session>, j: nat)
    requires 0 < k <= |ss| && j == k - 1 && m == FirstOldest(ss) && rest == RemoveAt(ss, m)
    requires ss[m].id !in Ids(rest)
    ensures |Ids(Oldest(ss, k))| == |Ids(Oldest(rest, j))| + 1
  {
    OldestIdsUnfold(ss, k, m, rest);
    OldestIdsWithin(rest, j);
    CardAddFresh(ss[m].id, Ids(Oldest(rest, j)), Ids(rest), Ids(Oldest(ss, k)));
  }

  /**
   * The k sessions selected for eviction carry k distinct ids. Distinct ids
   * are stated here as "as many ids as rows".
   */
  lemma {:induction false} OldestIdsCount(ss: seq<Session>, k: nat)
    requires k <= |ss| && |Ids(ss)| == |ss|
    ensures |Ids(Oldest(ss, k))| == k
    decreases k
  {
    if k > 0 {
      var m := FirstOldest(ss);
      var rest := RemoveAt(ss, m);
      var j: nat := k - 1;
      RemoveAtFresh(ss, m);
      OldestIdsCount(rest, j);
      OldestIdsStep(ss, k, m, rest, j);
    } else {
      assert Ids(Oldest(ss, k)) == {};
    }
  }

  /** No evicted session is newer than a session of the list that is kept. */
  lemma {:induction false} OldestBeforeKept(ss: seq<Session>, k: nat, i: nat, s: Session)
    requires i < k <= |ss|
    requires s in ss && s.id !in Ids(Oldest(ss, k))
    ensures Oldest(ss, k)[i].createdAt <= s.createdAt
    decreases k
  {
    var m := FirstOldest(ss);
    var rest := RemoveAt(ss, m);
    var e' := Oldest(rest, k - 1);
    assert Oldest(ss, k) == [ss[m]] + e';
    if i == 0 {
      var q :| 0 <= q < |ss| && ss[q] == s;
      FirstOldestIsOldest(ss);
    } else {
      assert s != ss[m] && s.id !in Ids(e') by { IdsCons(ss[m], e'); }
      assert s in rest by { RemoveAtMembers(ss, m); }
      OldestBeforeKept(rest, k - 1, i - 1, s);
    }
  }

  /**
   * Ties go by list position: when an evicted session and a kept one were
   * created at the same time, the evicted one comes first in the list, as in
   * a stable sort.
   */
  lemma {:induction false} OldestTiesByPosition(ss: seq<Session>, k: nat, i: nat, q: nat, p: nat)
    requires i < k <= |ss| && UniqueIds(ss)
    requires q < |ss| && p < |ss| && ss[q] == Oldest(ss, k)[i]
    requires ss[p].id !in Ids(Oldest(ss, k)) && ss[p].createdAt == ss[q].createdAt
    ensures q < p
    decreases k
  {
    var m := FirstOldest(ss);
    var rest := RemoveAt(ss, m);
    var j: nat := k - 1;
    var e' := Oldest(rest, j);
    assert Oldest(ss, k) == [ss[m]] + e';
    assert p != m && ss[p].id !in Ids(e') by { IdsCons(ss[m], e'); }
    if i == 0 {
      assert q == m by { assert ss[q].id == ss[m].id; }
      FirstOldestTie(ss, m, p);
    } else {
      assert ss[q] == e'[i - 1];
      assert UniqueIds(rest) && q != m by {
        RemoveAtUnique(ss, m);
        OldestIdsWithin(rest, j);
        assert e'[i - 1].id in Ids(e');
      }
      var q' := if q < m then q else q - 1;
      var p' := if p < m then p else p - 1;
      assert q' < |rest| && rest[q'] == ss[q] by { RemoveAtIndex(ss, m, q); }
      assert p' < |rest| && rest[p'] == ss[p] by { RemoveAtIndex(ss, m, p); }
      OldestTiesByPosition(rest, j, i - 1, q', p');
    }
  }

  /** A session created at the same time as the first oldest one comes after it. */
  lemma FirstOldestTie(ss: seq<Session>, m: nat, p: nat)
    requires |ss| > 0 && m == FirstOldest(ss)
    requires p < |ss| && p != m && ss[p].createdAt == ss[m].createdAt
    ensures m < p
  {
    FirstOldestIsOldest(ss);
  }

  /**
   * A session that is last in the list and at least as new as every other one
   * is never among the k < |ss| evicted.
   */
  lemma {:induction false} NewestNotEvicted(ss: seq<Session>, k: nat)
    requires k < |ss| && UniqueIds(ss)
    requires forall j :: 0 <= j < |ss| ==> ss[j].createdAt <= ss[|ss| - 1].createdAt
    ensures ss[|ss| - 1].id !in Ids(Oldest(ss, k))
    decreases k
  {
    if k > 0 {
      var m := FirstOldest(ss);
      var rest := RemoveAt(ss, m);
      var j: nat := k - 1;
      var tail := Oldest(rest, j);
      assert m < |ss| - 1 by { FirstOldestNotLast(ss); }
      assert UniqueIds(rest) by { RemoveAtUnique(ss, m); }
      assert rest[|rest| - 1] == ss[|ss| - 1] && forall j :: 0 <= j < |rest| ==> rest[j].createdAt <= rest[|rest| - 1].createdAt by {
        RemoveKeepsNewestLast(ss, m);
      }
      NewestNotEvicted(rest, j);
      assert ss[m].id != ss[|ss| - 1].id;
      assert Oldest(ss, k) == [ss[m]] + tail;
      IdsCons(ss[m], tail);
    }
  }

  lemma FirstOldestNotLast(ss: seq<Session>)
    requires |ss| >= 2
    requires forall j :: 0 <= j < |ss| ==> ss[j].createdAt <= ss[|ss| - 1].createdAt
    ensures FirstOldest(ss) < |ss| - 1
  {
    FirstOldestIsOldest(ss);
    assert ss[0].createdAt <= ss[|ss| - 1].createdAt;
  }

  lemma RemoveKeepsNewestLast(ss: seq<Session>, m: nat)
    requires m < |ss| - 1
    requires forall j :: 0 <= j < |ss| ==> ss[j].createdAt <= ss[|ss| - 1].createdAt
    ensures var rest := RemoveAt(ss, m);
            && rest[|rest| - 1] == ss[|ss| - 1]
            && forall j :: 0 <= j < |rest| ==> rest[j].createdAt <= rest[|rest| - 1].createdAt
  {
    var rest := RemoveAt(ss, m);
    assert rest[|rest| - 1] == ss[|ss| - 1];
    forall j | 0 <= j < |rest| ensures rest[j].createdAt <= rest[|rest| - 1].createdAt {
      var j' := if j < m then j else j + 1;
      assert rest[j] == ss[j'];
    }
  }

  /** The ids `enforce_session_limit` hands to `delete_many`. */
  function Evicted(rows: seq<Session>, userId: nat, now: int): (ids: set<nat>)
    ensures ids <= Ids(Filter(rows, ActiveFor(userId, now)))
  {
    var active := Filter(rows, ActiveFor(userId, now));
    if |active| > MaxActiveRefreshSessions then
      var evicted := Oldest(active, |active| - MaxActiveRefreshSessions);
      OldestMembers(active, |active| - MaxActiveRefreshSessions);
      IdsOfMembers(evicted, active);
      Ids(evicted)
    else {}
  }

  /** The table after `enforce_session_limit(user_id)` at time `now`. */
  function LimitEnforced(rows: seq<Session>, userId: nat, now: int): (r: seq<Session>)
    ensures |Filter(rows, ActiveFor(userId, now))| <= MaxActiveRefreshSessions ==> r == rows
  {
    var active := Filter(rows, ActiveFor(userId, now));
    if |active| > MaxActiveRefreshSessions then Filter(rows, Not(IdIn(Evicted(rows, userId, now))))
    else rows
  }

  /**
   * Above the cap, exactly `total - MAX` rows go and exactly MAX active
   * sessions of the user remain; at or below it the count is unchanged.
   */
  lemma LimitEnforcedCount(rows: seq<Session>, userId: nat, now: int)
    requires UniqueIds(rows)
    ensures var total := |Filter(rows, ActiveFor(userId, now))|;
            var after := LimitEnforced(rows, userId, now);
            && |Filter(after, ActiveFor(userId, now))| == (if total > MaxActiveRefreshSessions then MaxActiveRefreshSessions else total)
            && |after| == |rows| - (if total > MaxActiveRefreshSessions then total - MaxActiveRefreshSessions else 0)
  {
    var active := Filter(rows, ActiveFor(userId, now));
    if |active| > MaxActiveRefreshSessions {
      var k := |active| - MaxActiveRefreshSessions;
      var evicted := Oldest(active, k);
      var ids := Evicted(rows, userId, now);
      assert ids == Ids(evicted);
      FilterUnique(rows, ActiveFor(userId, now));
      UniqueIdsCard(active);
      OldestIdsCount(active, k);
      OldestIdsWithin(active, k);
      FilterCommute(rows, Not(IdIn(ids)), ActiveFor(userId, now));
      RemoveIdsCount(active, ids);
      assert ids <= Ids(rows) by {
        FilterMembers(rows, ActiveFor(userId, now));
        IdsOfMembers(active, rows);
      }
      RemoveIdsCount(rows, ids);
    }
  }

  /** Other users' sessions and the user's expired sessions are never evicted. */
  lemma LimitEnforcedKeepsInactive(rows: seq<Session>, userId: nat, now: int)
    requires UniqueIds(rows)
    ensures forall s :: s in rows && (s.userId != userId || s.expiresAt <= now) ==> s in LimitEnforced(rows, userId, now)
  {
    var ids := Evicted(rows, userId, now);
    var active := Filter(rows, ActiveFor(userId, now));
    FilterMembers(rows, ActiveFor(userId, now));
    FilterMembers(rows, Not(IdIn(ids)));
    forall s | s in rows && (s.userId != userId || s.expiresAt <= now)
      ensures s in LimitEnforced(rows, userId, now)
    {
      if s.id in ids {
        var j :| 0 <= j < |active| && active[j].id == s.id;
        assert active[j] in active;
        SameIdSameRow(rows, active[j], s);
        assert false;
      }
    }
  }

  /** Every evicted session is at least as old as every active session kept. */
  lemma LimitEnforcedEvictsOldest(rows: seq<Session>, userId: nat, now: int)
    requires UniqueIds(rows)
    ensures var after := LimitEnforced(rows, userId, now);
            forall e, s :: e in rows && e !in after && s in after && ActiveFor(userId, now)(s) ==> e.createdAt <= s.createdAt
  {
    var active := Filter(rows, ActiveFor(userId, now));
    if |active| > MaxActiveRefreshSessions {
      forall e, s | e in rows && e !in LimitEnforced(rows, userId, now) && s in LimitEnforced(rows, userId, now) && ActiveFor(userId, now)(s)
        ensures e.createdAt <= s.createdAt
      {
        EvictedRowIsOldest(rows, userId, now, e, s);
      }
    }
  }

  lemma EvictedRowIsOldest(rows: seq<Session>, userId: nat, now: int, e: Session, s: Session)
    requires UniqueIds(rows)
    requires e in rows && e !in LimitEnforced(rows, userId, now)
    requires s in LimitEnforced(rows, userId, now) && ActiveFor(userId, now)(s)
    ensures e.createdAt <= s.createdAt
  {
    var active := Filter(rows, ActiveFor(userId, now));
    assert |active| > MaxActiveRefreshSessions;
    var k := |active| - MaxActiveRefreshSessions;
    var evicted := Oldest(active, k);
    var ids := Ids(evicted);
    assert e.id in ids by {
      assert LimitEnforced(rows, userId, now) == Filter(rows, Not(IdIn(ids)));
      FilterMembers(rows, Not(IdIn(ids)));
    }
    var j :| 0 <= j < |evicted| && evicted[j].id == e.id;
    assert evicted[j] == e by {
      assert evicted[j] in active by { OldestMembers(active, k); }
      FilterMembers(rows, ActiveFor(userId, now));
      SameIdSameRow(rows, evicted[j], e);
    }
    assert s in active && s.id !in ids by {
      assert LimitEnforced(rows, userId, now) == Filter(rows, Not(IdIn(ids)));
      FilterMembers(rows, Not(IdIn(ids)));
      FilterMembers(rows, ActiveFor(userId, now));
    }
    OldestBeforeKept(active, k, j, s);
  }

  /**
   * Among the user's active sessions, one that is evicted and one that is kept
   * with the same creation time: the evicted one comes first in the user's list.
   */
  lemma EvictedTiesComeFirst(rows: seq<Session>, userId: nat, now: int, q: nat, p: nat)
    requires UniqueIds(rows)
    requires q < |Filter(rows, ActiveFor(userId, now))| && p < |Filter(rows, ActiveFor(userId, now))|
    requires Filter(rows, ActiveFor(userId, now))[q] !in LimitEnforced(rows, userId, now)
    requires Filter(rows, ActiveFor(userId, now))[p] in LimitEnforced(rows, userId, now)
    requires Filter(rows, ActiveFor(userId, now))[q].createdAt == Filter(rows, ActiveFor(userId, now))[p].createdAt
    ensures q < p
  {
    var active := Filter(rows, ActiveFor(userId, now));
    assert active[q] in active;
    FilterMembers(rows, ActiveFor(userId, now));
    assert |active| > MaxActiveRefreshSessions;
    var k := |active| - MaxActiveRefreshSessions;
    var evicted := Oldest(active, k);
    var ids := Ids(evicted);
    assert active[q].id in ids && active[p].id !in ids by {
      assert LimitEnforced(rows, userId, now) == Filter(rows, Not(IdIn(ids)));
      FilterMembers(rows, Not(IdIn(ids)));
    }
    var j :| 0 <= j < |evicted| && evicted[j].id == active[q].id;
    assert UniqueIds(active) by { FilterUnique(rows, ActiveFor(userId, now)); }
    assert evicted[j] == active[q] by {
      assert evicted[j] in active by { OldestMembers(active, k); }
      SameIdSameRow(active, evicted[j], active[q]);
    }
    OldestTiesByPosition(active, k, j, q, p);
  }

  /**
   * A session appended with a creation time no earlier than any other row, and
   * still active, survives the cap enforcement that follows its creation.
   */
  lemma NewSessionSurvivesLimit(rows: seq<Session>, s: Session, now: int)
    requires UniqueIds(rows + [s])
    requires s.expiresAt > now
    requires forall r :: r in rows ==> r.createdAt <= s.createdAt
    ensures s in LimitEnforced(rows + [s], s.userId, now)
  {
    var all := rows + [s];
    var p := ActiveFor(s.userId, now);
    var active := Filter(all, p);
    FilterAppend(rows, [s], p);
    assert Filter([s], p) == [s];
    assert active[|active| - 1] == s;
    FilterUnique(all, p);
    if |active| > MaxActiveRefreshSessions {
      var k := |active| - MaxActiveRefreshSessions;
      assert s.id !in Ids(Oldest(active, k)) by {
        forall j | 0 <= j < |active| ensures active[j].createdAt <= s.createdAt {
          assert active[j] in all by { FilterMembers(all, p); }
          if active[j] != s {
            assert active[j] in rows;
          }
        }
        NewestNotEvicted(active, k);
      }
      assert s.id !in Evicted(all, s.userId, now);
      FilterMembers(all, Not(IdIn(Evicted(all, s.userId, now))));
    }
  }

  // ---------------------------------------------------------------------------
  // Expiry sweep

  /** The table after `delete_expired_sessions()` at time `now`. */
  function Unexpired(rows: seq<Session>, now: int): (r: seq<Session>)
    ensures forall s :: s in r <==> s in rows && s.expiresAt >= now
  {
    FilterMembers(rows, Not(ExpiredAt(now)));
    Filter(rows, Not(ExpiredAt(now)))
  }

  /** Sweeping twice at the same time removes nothing more. */
  lemma UnexpiredIdempotent(rows: seq<Session>, now: int)
    ensures Unexpired(Unexpired(rows, now), now) == Unexpired(rows, now)
  {
    FilterIdempotent(rows, Not(ExpiredAt(now)));
  }

  /** A table with no row expired before `now` is left as it is. */
  lemma UnexpiredKeepsLive(rows: seq<Session>, now: int)
    requires forall i :: 0 <= i < |rows| ==> rows[i].expiresAt >= now
    ensures Unexpired(rows, now) == rows
  {
    FilterKeepsAll(rows, Not(ExpiredAt(now)));
  }

  // ---------------------------------------------------------------------------
  // The store

  /**
   * The session service: the session table, with the generic repository
   * operations and the two session-specific rules.
   */
  class SessionService {
    var rows: seq<Session>
    var nextId: nat

    /** Primary keys are distinct and below the next key to hand out. */
    ghost predicate Valid()
      reads this
    {
      UniqueIds(rows) && forall s :: s in rows ==> s.id < nextId
    }

    constructor ()
      ensures Valid() && rows == [] && nextId == 0
    {
      rows := [];
      nextId := 0;
    }

    /** `list(Session.user_id == user_id)`, in table order. */
    function List(userId: int): (ss: seq<Session>)
      reads this
      ensures forall s :: s in ss <==> s in rows && s.userId == userId
    {
      FilterMembers(rows, OwnedBy(userId));
      Filter(rows, OwnedBy(userId))
    }

    method Create(data: SessionCreate, now: int) returns (s: Session)
      requires Valid()
      modifies this
      ensures Valid()
      ensures s == Session(old(nextId), data.userId, data.refreshToken, data.fingerprint,
                           data.userAgent, data.ip, data.expiresAt, now)
      ensures rows == old(rows) + [s] && nextId == old(nextId) + 1
    {
      s := Session(nextId, data.userId, data.refreshToken, data.fingerprint, data.userAgent, data.ip, data.expiresAt, now);
      rows := rows + [s];
      nextId := nextId + 1;
    }

    method Update(id: nat, data: SessionUpdate)
      requires Valid()
      modifies this`rows
      ensures Valid()
      ensures rows == Rotated(old(rows), id, data)
    {
      rows := Rotated(rows, id, data);
      forall s | s in rows ensures s.id < nextId {
        var i :| 0 <= i < |rows| && rows[i] == s;
        assert old(rows)[i] in old(rows);
      }
    }

    /** `delete_where(p)`: every row satisfying `p` goes. */
    method DeleteWhere(p: Session -> bool)
      requires Valid()
      modifies this`rows
      ensures Valid()
      ensures rows == Filter(old(rows), Not(p))
    {
      FilterUnique(rows, Not(p));
      FilterMembers(rows, Not(p));
      rows := Filter(rows, Not(p));
    }

    /** `delete(item_id=id)`. */
    method Delete(id: nat)
      requires Valid()
      modifies this`rows
      ensures Valid()
      ensures rows == Filter(old(rows), Not(IdIn({id})))
    {
      DeleteWhere(IdIn({id}));
    }

    /**
     * `enforce_session_limit(user_id)`: count the user's sessions with
     * `expires_at > now`; when there are more than MAX, delete the
     * `total - MAX` oldest by creation time.
     */
    method EnforceSessionLimit(userId: nat, now: int)
      requires Valid()
      modifies this`rows
      ensures Valid()
      ensures rows == LimitEnforced(old(rows), userId, now)
      ensures |Filter(rows, ActiveFor(userId, now))| <= MaxActiveRefreshSessions
      ensures forall s :: s in old(rows) && (s.userId != userId || s.expiresAt <= now) ==> s in rows
    {
      ghost var rows0 := rows;
      var activeSessions := Filter(rows, ActiveFor(userId, now));
      var total := |activeSessions|;
      if total >= MaxActiveRefreshSessions {
        var sessionsToDeleteCount := total - MaxActiveRefreshSessions;
        if sessionsToDeleteCount > 0 {
          var sessionsToDeleteIds := Ids(Oldest(activeSessions, sessionsToDeleteCount));
          assert sessionsToDeleteIds == Evicted(rows0, userId, now);
          DeleteWhere(IdIn(sessionsToDeleteIds));
        }
      }
      assert rows == LimitEnforced(rows0, userId, now);
      LimitEnforcedCount(rows0, userId, now);
      LimitEnforcedKeepsInactive(rows0, userId, now);
    }

    /** `delete_expired_sessions()`: drop every row with `expires_at < now`. */
    method DeleteExpiredSessions(now: int)
      requires Valid()
      modifies this`rows
      ensures Valid()
      ensures rows == Unexpired(old(rows), now)
      ensures forall s :: s in old(rows) && s.expiresAt >= now ==> s in rows
      ensures forall s :: s in rows ==> s in old(rows) && s.expiresAt >= now
    {
      DeleteWhere(ExpiredAt(now));
    }
  }
}
