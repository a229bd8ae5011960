/**
 * A worked instance of login and the cap: a user at the cap who presents the
 * token of an already expired session ends above the cap.
 */
module LoginExamples {
  import opened Wrappers
  import opened Tables
  import opened Settings
  import opened Schemas
  import opened Sessions
  import opened Auth

  /**
   * Five active sessions of user 1 holding token "a", and a sixth, expired at
   * time 5, holding token "t".
   */
  function OverCapRows(): seq<Session> {
    [ Session(0, 1, "a", "", None, "", 100, 0), Session(1, 1, "a", "", None, "", 100, 0),
      Session(2, 1, "a", "", None, "", 100, 0), Session(3, 1, "a", "", None, "", 100, 0),
      Session(4, 1, "a", "", None, "", 100, 0), Session(5, 1, "t", "", None, "", 5, 0) ]
  }

  /** A hash check under which a raw token verifies only against itself. */
  function SameText(raw: string, hashed: string): bool {
    raw == hashed
  }

  /**
   * The cap is not an invariant of login: a user with five active sessions
   * holding token "a" and a sixth, expired at time 5, holding token "t", who
   * logs in at time 10 presenting "t", has that session rotated back to life
   * and ends with six active sessions.
   */
  lemma RotatingLoginExceedsCap()
    ensures var rows := OverCapRows();
            var client := ClientInfo("", None, "", None, Some("t"));
            && UniqueIds(rows)
            && |Filter(rows, ActiveFor(1, 10))| == MaxActiveRefreshSessions
            && |Filter(LoginTable(rows, 6, 1, client, SameText, "h", 100, 10), ActiveFor(1, 10))| == MaxActiveRefreshSessions + 1
  {
    var rows := OverCapRows();
    assert forall j :: 0 <= j < 6 ==> rows[j].id == j && rows[j].userId == 1;
    assert forall j :: 0 <= j < 5 ==> rows[j].refreshToken == "a" && rows[j].expiresAt == 100;
    OverCapLogin(rows, ClientInfo("", None, "", None, Some("t")));
  }

  /** The same counterexample, stated for any table of that shape. */
  lemma OverCapLogin(rows: seq<Session>, client: ClientInfo)
    requires |rows| == 6 && client.refreshToken == Some("t")
    requires forall j :: 0 <= j < 6 ==> rows[j].id == j && rows[j].userId == 1
    requires forall j :: 0 <= j < 5 ==> rows[j].refreshToken == "a" && rows[j].expiresAt == 100
    requires rows[5].refreshToken == "t" && rows[5].expiresAt == 5
    ensures && UniqueIds(rows)
            && |Filter(rows, ActiveFor(1, 10))| == MaxActiveRefreshSessions
            && |Filter(LoginTable(rows, 6, 1, client, SameText, "h", 100, 10), ActiveFor(1, 10))| == MaxActiveRefreshSessions + 1
  {
    assert UniqueIds(rows);
    assert Filter(rows, OwnedBy(1)) == rows by { FilterKeepsAll(rows, OwnedBy(1)); }
    var live := rows[..5];
    assert |Filter(rows, ActiveFor(1, 10))| == 5 by {
      assert rows == live + [rows[5]];
      FilterAppend(live, [rows[5]], ActiveFor(1, 10));
      FilterKeepsAll(live, ActiveFor(1, 10));
      FilterDropsAll([rows[5]], ActiveFor(1, 10));
    }
    assert RotationTarget(rows, 1, SameText, client.refreshToken) == Some(5) by {
      assert "t" != "a";
      ScanFindsFirst(rows, SameText, Some("t"), 5);
    }
    RotatingExpiredAddsActive(rows, 6, 1, client, SameText, "h", 100, 10);
  }
}
