/**
 * The handlers and the scheduled job of server.js over an in-memory copy of
 * its tables.
 *
 * Each query's outcome is a parameter: `None` when the storage engine
 * succeeds, `Some(message)` when it reports an error with that
 * `err.message`. The scheduler's clock, the QQ relay's reply and the random
 * source are parameters too.
 */
module Server {
  import opened Common
  import opened DailyPassword
  import opened Auth
  import opened Tables

  const SETTINGS_UPDATED := "设置更新成功"
  const NAV_BUTTONS_UPDATED := "导航按钮更新成功"
  const ANNOUNCEMENT_PUBLISHED := "公告发布成功"

  /** The group the rotation job posts to (the placeholder of the source). */
  const QQ_GROUP_ID := "你的QQ群号"

  /** The text of the relay message before the password. */
  const NOTICE_HEAD := "【系统公告】\n今日访问密码："

  /** The text of the relay message between the password and the date. */
  const NOTICE_DATE := "\n有效期："

  /** The body of the POST to the QQ relay: `{ group_id, message }`. */
  datatype RelayPost = RelayPost(groupId: string, message: string)

  /** What `publishPasswordToQQ` did: the post it sent, and whether the relay accepted it. */
  datatype Notice = Notice(post: RelayPost, delivered: bool)

  /**
   * `publishPasswordToQQ`: posts the password and the date to the relay.
   * A relay failure (`relayError`) is caught and only logged, so the
   * function always returns.
   */
  function PublishPasswordToQQ(password: string, date: string, relayError: Option<string>): (notice: Notice)
    ensures notice.post.groupId == QQ_GROUP_ID
    ensures notice.delivered <==> relayError.None?
    ensures var m := notice.post.message;
      |m| == |NOTICE_HEAD| + |password| + |NOTICE_DATE| + |date| &&
      m[|NOTICE_HEAD|..|NOTICE_HEAD| + |password|] == password &&
      m[|m| - |date|..] == date
  {
    var message := NOTICE_HEAD + password + NOTICE_DATE + date;
    assert message[|NOTICE_HEAD|..|NOTICE_HEAD| + |password|] == password;
    Notice(RelayPost(QQ_GROUP_ID, message), relayError.None?)
  }

  /** The storage the server talks to: three of its four tables (admins are read-only, see Auth.Login). */
  class Database {
    var settings: seq<Setting>
    var navButtons: seq<NavRow>
    var announcements: seq<Announcement>

    constructor (settings0: seq<Setting>, navButtons0: seq<NavRow>, announcements0: seq<Announcement>)
      ensures settings == settings0 && navButtons == navButtons0 && announcements == announcements0
    {
      settings := settings0;
      navButtons := navButtons0;
      announcements := announcements0;
    }

    /**
     * GET /api/settings: the rows folded into a name-to-value map, one row
     * at a time, or 500 with the query's error.
     */
    method GetSettings(queryError: Option<string>) returns (r: Response<map<string, string>>)
      ensures queryError.Some? ==> r == Fail(STATUS_SERVER_ERROR, queryError.value)
      ensures queryError.None? ==> r == Ok(FoldSettings(settings))
    {
      if queryError.Some? {
        return Fail(STATUS_SERVER_ERROR, queryError.value);
      }
      var results := settings;
      var folded: map<string, string> := map[];
      for i := 0 to |results|
        invariant folded == FoldSettings(results[..i])
      {
        assert results[..i + 1][..i] == results[..i];
        // The assignment to a plain object's `__proto__` key creates nothing.
        if results[i].name != PROTO_KEY {
          folded := folded[results[i].name := results[i].value];
        }
      }
      assert results[..|results|] == results;
      return Ok(folded);
    }

    /**
     * POST /api/settings/update behind the token gate: one UPDATE per
     * requested name. `faults` maps the names whose UPDATE fails to the
     * error each reports. The successful UPDATEs stay applied when another
     * fails; the reply is 500 with one of the errors.
     */
    method UpdateSettings(authorization: Option<string>, verify: string -> Option<Claims>,
                          request: map<string, string>, faults: map<string, string>)
      returns (r: Response<string>)
      modifies this
      ensures navButtons == old(navButtons) && announcements == old(announcements)
      ensures var gate := Authenticate(authorization, verify);
        gate.Deny? ==> settings == old(settings) && r == Fail(gate.status, gate.error)
      ensures Authenticate(authorization, verify).Pass? ==>
        settings == ApplyUpdates(old(settings), request, faults.Keys) &&
        (r == Ok(SETTINGS_UPDATED) <==> request.Keys !! faults.Keys) &&
        (r.Fail? ==> r.status == STATUS_SERVER_ERROR &&
                     exists name :: name in request && name in faults && r.error == faults[name])
    {
      var gate := Authenticate(authorization, verify);
      if gate.Deny? {
        return Fail(gate.status, gate.error);
      }
      var pending := request.Keys;
      var done: map<string, string> := map[];
      var firstError: Option<string> := None;
      while pending != {}
        invariant pending <= request.Keys
        invariant done.Keys == request.Keys - pending
        invariant forall name :: name in done ==> done[name] == request[name]
        invariant settings == ApplyUpdates(old(settings), done, faults.Keys)
        invariant firstError.None? <==> done.Keys !! faults.Keys
        invariant firstError.Some? ==>
          exists name :: name in done && name in faults && firstError.value == faults[name]
        invariant navButtons == old(navButtons) && announcements == old(announcements)
        decreases pending
      {
        var name :| name in pending;
        if name in faults {
          ApplyOneFailed(old(settings), done, faults.Keys, name, request[name]);
          if firstError.None? {
            firstError := Some(faults[name]);
          }
        } else {
          ApplyOneMore(old(settings), done, faults.Keys, name, request[name]);
          settings := UpdateWhere(settings, name, request[name]);
        }
        done := done[name := request[name]];
        pending := pending - {name};
      }
      assert done == request;
      if firstError.Some? {
        return Fail(STATUS_SERVER_ERROR, firstError.value);
      }
      return Ok(SETTINGS_UPDATED);
    }

    /** GET /api/nav-buttons: the rows ordered by `order`, or 500. */
    method ListNavButtons(queryError: Option<string>) returns (r: Response<seq<NavRow>>)
      ensures queryError.Some? ==> r == Fail(STATUS_SERVER_ERROR, queryError.value)
      ensures queryError.None? ==> r == Ok(SortByOrder(navButtons))
      ensures r.Ok? ==> SortedByOrder(r.body) && multiset(r.body) == multiset(navButtons)
    {
      if queryError.Some? {
        return Fail(STATUS_SERVER_ERROR, queryError.value);
      }
      return Ok(SortByOrder(navButtons));
    }

    /**
     * POST /api/nav-buttons/update behind the token gate: DELETE every row,
     * then INSERT the request's buttons with `order` set to their index.
     * The two statements are not one transaction: when the INSERT fails the
     * table stays empty.
     */
    method UpdateNavButtons(authorization: Option<string>, verify: string -> Option<Claims>,
                            buttons: seq<Button>, deleteError: Option<string>, insertError: Option<string>)
      returns (r: Response<string>)
      modifies this
      ensures settings == old(settings) && announcements == old(announcements)
      ensures var gate := Authenticate(authorization, verify);
        gate.Deny? ==> navButtons == old(navButtons) && r == Fail(gate.status, gate.error)
      ensures Authenticate(authorization, verify).Pass? && deleteError.Some? ==>
        navButtons == old(navButtons) && r == Fail(STATUS_SERVER_ERROR, deleteError.value)
      ensures Authenticate(authorization, verify).Pass? && deleteError.None? && insertError.Some? ==>
        navButtons == [] && r == Fail(STATUS_SERVER_ERROR, insertError.value)
      ensures Authenticate(authorization, verify).Pass? && deleteError.None? && insertError.None? ==>
        navButtons == ToRows(buttons) && r == Ok(NAV_BUTTONS_UPDATED)
    {
      var gate := Authenticate(authorization, verify);
      if gate.Deny? {
        return Fail(gate.status, gate.error);
      }
      if deleteError.Some? {
        return Fail(STATUS_SERVER_ERROR, deleteError.value);
      }
      navButtons := [];
      var values := ToRows(buttons);
      if insertError.Some? {
        return Fail(STATUS_SERVER_ERROR, insertError.value);
      }
      navButtons := navButtons + values;
      return Ok(NAV_BUTTONS_UPDATED);
    }

    /**
     * POST /api/announcements/publish behind the token gate: INSERT one row
     * stamped with the engine's `NOW()`, given here as `now`.
     */
    method PublishAnnouncement(authorization: Option<string>, verify: string -> Option<Claims>,
                               title: string, content: string, now: int, insertError: Option<string>)
      returns (r: Response<string>)
      modifies this
      ensures settings == old(settings) && navButtons == old(navButtons)
      ensures var gate := Authenticate(authorization, verify);
        gate.Deny? ==> announcements == old(announcements) && r == Fail(gate.status, gate.error)
      ensures Authenticate(authorization, verify).Pass? && insertError.Some? ==>
        announcements == old(announcements) && r == Fail(STATUS_SERVER_ERROR, insertError.value)
      ensures Authenticate(authorization, verify).Pass? && insertError.None? ==>
        announcements == old(announcements) + [Announcement(title, content, now)] &&
        r == Ok(ANNOUNCEMENT_PUBLISHED)
    {
      var gate := Authenticate(authorization, verify);
      if gate.Deny? {
        return Fail(gate.status, gate.error);
      }
      if insertError.Some? {
        return Fail(STATUS_SERVER_ERROR, insertError.value);
      }
      announcements := announcements + [Announcement(title, content, now)];
      return Ok(ANNOUNCEMENT_PUBLISHED);
    }

    /** GET /api/announcements/latest: the newest announcement, None for `null`, or 500. */
    method LatestAnnouncement(queryError: Option<string>) returns (r: Response<Option<Announcement>>)
      ensures queryError.Some? ==> r == Fail(STATUS_SERVER_ERROR, queryError.value)
      ensures queryError.None? ==> r == Ok(Latest(announcements))
      ensures r.Ok? ==> (r.body.None? <==> announcements == [])
      ensures r.Ok? && r.body.Some? ==>
        r.body.value in announcements &&
        forall a :: a in announcements ==> a.createdAt <= r.body.value.createdAt
    {
      if queryError.Some? {
        return Fail(STATUS_SERVER_ERROR, queryError.value);
      }
      return Ok(Latest(announcements));
    }

    /**
     * The job scheduled for '0 0 * * *': generate a password from the draws,
     * write it into the `daily_password` row, then notify the relay. The
     * notification's outcome does not touch the tables.
     */
    method RotateDailyPassword(draws: seq<int>, date: string, relayError: Option<string>)
      returns (password: string, notice: Notice)
      requires ValidDraws(draws)
      modifies this
      ensures Spells(password, draws)
      ensures settings == UpdateWhere(old(settings), DAILY_PASSWORD, password)
      ensures navButtons == old(navButtons) && announcements == old(announcements)
      ensures notice == PublishPasswordToQQ(password, date, relayError)
    {
      password := GenerateDailyPassword(draws);
      settings := UpdateWhere(settings, DAILY_PASSWORD, password);
      notice := PublishPasswordToQQ(password, date, relayError);
    }
  }

  /** The settings of the example after its update: the site title changed, the password kept. */
  lemma ExampleSettingsAfterUpdate()
    ensures var rows := [Setting("site_title", "Portal"), Setting(DAILY_PASSWORD, "ABCDEFGH")];
      FoldSettings(ApplyUpdates(rows, map["site_title" := "My Portal"], {})) ==
        map["site_title" := "My Portal", DAILY_PASSWORD := "ABCDEFGH"]
  {
    var rows := [Setting("site_title", "Portal"), Setting(DAILY_PASSWORD, "ABCDEFGH")];
    var updated := ApplyUpdates(rows, map["site_title" := "My Portal"], {});
    assert updated == [Setting("site_title", "My Portal"), Setting(DAILY_PASSWORD, "ABCDEFGH")];
    FoldTwoSettings(Setting("site_title", "My Portal"), Setting(DAILY_PASSWORD, "ABCDEFGH"));
  }

  /** The seeded admin table of the example. */
  const EXAMPLE_ADMINS := [Admin(1, "admin", "hash-of-secret123")]

  /** In the example, the seeded admin's login succeeds and its token passes the gate as that admin. */
  lemma ExampleLoginPasses(compare: (string, string) -> bool, sign: Claims -> string,
                           verify: string -> Option<Claims>)
    requires compare("secret123", "hash-of-secret123")
    requires forall c: Claims :: verify(sign(c)) == Some(c)
    requires forall c: Claims :: sign(c) != "" && NoSpace(sign(c))
    ensures var login := Login(EXAMPLE_ADMINS, "admin", "secret123", None, compare, sign);
      login.Ok? && Authenticate(Some("Bearer " + login.body.token), verify) == Pass(Claims(1, "admin"))
  {
    LoginUniqueAdmin(EXAMPLE_ADMINS, 0, "secret123", compare, sign);
    var login := Login(EXAMPLE_ADMINS, "admin", "secret123", None, compare, sign);
    BearerHeaderYieldsToken(login.body.token);
  }

  /**
   * The login-then-update example of the portal: the seeded admin logs in;
   * an update without an Authorization header is refused with 401; the
   * same update with the issued token succeeds; reading the settings then
   * shows the new site title.
   */
  method PortalExample(compare: (string, string) -> bool, sign: Claims -> string,
                       verify: string -> Option<Claims>)
    returns (denied: Response<string>, updated: Response<string>, read: Response<map<string, string>>)
    requires compare("secret123", "hash-of-secret123")
    requires forall c: Claims :: verify(sign(c)) == Some(c)
    requires forall c: Claims :: sign(c) != "" && NoSpace(sign(c))
    ensures denied == Fail(STATUS_UNAUTHORIZED, ACCESS_DENIED)
    ensures updated == Ok(SETTINGS_UPDATED)
    ensures read == Ok(map["site_title" := "My Portal", DAILY_PASSWORD := "ABCDEFGH"])
  {
    ExampleLoginPasses(compare, sign, verify);
    var login := Login(EXAMPLE_ADMINS, "admin", "secret123", None, compare, sign);
    var header := Some("Bearer " + login.body.token);

    var rows := [Setting("site_title", "Portal"), Setting(DAILY_PASSWORD, "ABCDEFGH")];
    var db := new Database(rows, [], []);
    var request := map["site_title" := "My Portal"];
    var noFaults: map<string, string> := map[];
    assert noFaults.Keys == {};
    denied := db.UpdateSettings(None, verify, request, noFaults);
    assert db.settings == rows;
    updated := db.UpdateSettings(header, verify, request, noFaults);
    ExampleSettingsAfterUpdate();
    read := db.GetSettings(None);
  }
}
