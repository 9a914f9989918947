/**
 * The rows of the `system_settings`, `nav_buttons` and `announcements`
 * tables and the queries server.js runs on them, as functions on rows.
 * A table is the sequence of its rows in storage order.
 */
module Tables {
  import opened Common

  // ---------------------------------------------------------------------
  // system_settings
  // ---------------------------------------------------------------------

  /** A row of `system_settings`. */
  datatype Setting = Setting(name: string, value: string)

  /** The name of the setting the rotation job writes. */
  const DAILY_PASSWORD := "daily_password"

  /** The names the table holds. */
  function Names(rows: seq<Setting>): set<string>
  {
    set i | 0 <= i < |rows| :: rows[i].name
  }

  /**
   * The one name a row cannot add to the settings object: on a plain
   * JavaScript object, `settings["__proto__"] = value` runs the prototype
   * setter, which ignores a string value and creates no property.
   */
  const PROTO_KEY := "__proto__"

  /**
   * `settings[row.name] = row.value` for each row in turn: later rows
   * overwrite earlier ones, and a row named PROTO_KEY adds nothing.
   */
  function FoldSettings(rows: seq<Setting>): (settings: map<string, string>)
    ensures PROTO_KEY !in settings
    ensures forall k :: k in settings ==>
      exists i :: 0 <= i < |rows| && rows[i].name == k && rows[i].value == settings[k]
  {
    if rows == [] then map[]
    else
      var init, last := rows[..|rows| - 1], rows[|rows| - 1];
      var before := FoldSettings(init);
      assert forall i :: 0 <= i < |init| ==> init[i] == rows[i];
      if last.name == PROTO_KEY then before else before[last.name := last.value]
  }

  /** No row after position i has the same name as row i. */
  predicate LastWithName(rows: seq<Setting>, i: int)
    requires 0 <= i < |rows|
  {
    forall j :: i < j < |rows| ==> rows[j].name != rows[i].name
  }

  /** The folded map has as keys exactly the row names other than PROTO_KEY. */
  /** Two rows with different names, neither PROTO_KEY, fold to both entries. */
  lemma FoldTwoSettings(a: Setting, b: Setting)
    requires a.name != b.name && a.name != PROTO_KEY && b.name != PROTO_KEY
    ensures FoldSettings([a, b]) == map[a.name := a.value, b.name := b.value]
  {
    assert [a, b][..1] == [a];
    assert [a][..0] == [];
  }

  lemma {:induction false} FoldSettingsKeys(rows: seq<Setting>)
    ensures FoldSettings(rows).Keys == Names(rows) - {PROTO_KEY}
  {
    if rows != [] {
      var init := rows[..|rows| - 1];
      FoldSettingsKeys(init);
      forall k | k in Names(rows) && k != PROTO_KEY ensures k in FoldSettings(rows) {
        var i :| 0 <= i < |rows| && rows[i].name == k;
        if i < |init| { assert init[i] == rows[i]; }
      }
    }
  }

  /** A name other than PROTO_KEY maps to the value of the last row that has it. */
  lemma {:induction false} FoldSettingsLastWins(rows: seq<Setting>, i: int)
    requires 0 <= i < |rows| && LastWithName(rows, i) && rows[i].name != PROTO_KEY
    ensures rows[i].name in FoldSettings(rows) && FoldSettings(rows)[rows[i].name] == rows[i].value
  {
    var init := rows[..|rows| - 1];
    if i < |init| {
      assert init[i] == rows[i];
      assert LastWithName(init, i);
      FoldSettingsLastWins(init, i);
    }
  }

  /**
   * Reading the settings gives a map whose keys are exactly the row names
   * other than PROTO_KEY, each mapped to the value of the last row with that name.
   */
  lemma FoldSettingsIsLastWins(rows: seq<Setting>)
    ensures FoldSettings(rows).Keys == Names(rows) - {PROTO_KEY}
    ensures forall i :: 0 <= i < |rows| && LastWithName(rows, i) && rows[i].name != PROTO_KEY ==>
      FoldSettings(rows)[rows[i].name] == rows[i].value
  {
    FoldSettingsKeys(rows);
    forall i | 0 <= i < |rows| && LastWithName(rows, i) && rows[i].name != PROTO_KEY
      ensures FoldSettings(rows)[rows[i].name] == rows[i].value
    {
      FoldSettingsLastWins(rows, i);
    }
  }

  /** Tables whose rows have the same names, row by row, hold the same names. */
  lemma SameNames(a: seq<Setting>, b: seq<Setting>)
    requires |a| == |b| && forall i :: 0 <= i < |a| ==> a[i].name == b[i].name
    ensures Names(a) == Names(b)
  {
    forall k | k in Names(a) ensures k in Names(b) {
      var i :| 0 <= i < |a| && a[i].name == k;
      assert b[i].name == k;
    }
    forall k | k in Names(b) ensures k in Names(a) {
      var i :| 0 <= i < |b| && b[i].name == k;
      assert a[i].name == k;
    }
  }

  /**
   * `UPDATE system_settings SET value = ? WHERE name = ?`: every row with
   * that name takes the value, every other row is untouched, and no name is
   * added or removed.
   */
  function UpdateWhere(rows: seq<Setting>, name: string, value: string): (updated: seq<Setting>)
    ensures |updated| == |rows| && Names(updated) == Names(rows)
    ensures forall i :: 0 <= i < |rows| && rows[i].name == name ==> updated[i] == Setting(name, value)
    ensures forall i :: 0 <= i < |rows| && rows[i].name != name ==> updated[i] == rows[i]
  {
    var updated := seq(|rows|, i requires 0 <= i < |rows| => if rows[i].name == name then Setting(name, value) else rows[i]);
    SameNames(updated, rows);
    updated
  }

  /**
   * A row after one UPDATE per requested name: the requested value, unless
   * that name's UPDATE failed (a name in `failed`).
   */
  function UpdatedRow(row: Setting, request: map<string, string>, failed: set<string>): Setting
  {
    if row.name in request && row.name !in failed then Setting(row.name, request[row.name]) else row
  }

  /** The table after one UPDATE per requested name, the ones in `failed` having no effect. */
  function ApplyUpdates(rows: seq<Setting>, request: map<string, string>, failed: set<string>): (updated: seq<Setting>)
    ensures |updated| == |rows| && Names(updated) == Names(rows)
    ensures forall i :: 0 <= i < |rows| && (rows[i].name !in request || rows[i].name in failed) ==> updated[i] == rows[i]
    ensures forall i :: 0 <= i < |rows| && rows[i].name in request && rows[i].name !in failed ==>
      updated[i] == Setting(rows[i].name, request[rows[i].name])
  {
    var updated := seq(|rows|, i requires 0 <= i < |rows| => UpdatedRow(rows[i], request, failed));
    SameNames(updated, rows);
    updated
  }

  /** One more UPDATE that succeeds extends the set of applied names. */
  lemma ApplyOneMore(rows: seq<Setting>, request: map<string, string>, failed: set<string>, name: string, value: string)
    requires name !in request && name !in failed
    ensures UpdateWhere(ApplyUpdates(rows, request, failed), name, value) ==
      ApplyUpdates(rows, request[name := value], failed)
  {
  }

  /** A failing UPDATE leaves the table as it was. */
  lemma ApplyOneFailed(rows: seq<Setting>, request: map<string, string>, failed: set<string>, name: string, value: string)
    requires name !in request && name in failed
    ensures ApplyUpdates(rows, request, failed) == ApplyUpdates(rows, request[name := value], failed)
  {
  }

  /** A single UPDATE is the one-name case of ApplyUpdates. */
  lemma UpdateWhereIsSingleUpdate(rows: seq<Setting>, name: string, value: string)
    ensures UpdateWhere(rows, name, value) == ApplyUpdates(rows, map[name := value], {})
  {
  }

  /** A settings map with each requested, non-failed name that it has set to its requested value. */
  function Overlay(before: map<string, string>, request: map<string, string>, failed: set<string>): map<string, string>
  {
    map k | k in before :: if k in request && k !in failed then request[k] else before[k]
  }

  /**
   * What reading the settings shows after the updates: every requested name
   * that has a row and whose UPDATE succeeded maps to its new value; no name
   * is added or removed; every other name keeps its value.
   */
  lemma {:induction false} FoldAfterUpdates(rows: seq<Setting>, request: map<string, string>, failed: set<string>)
    ensures FoldSettings(ApplyUpdates(rows, request, failed)) == Overlay(FoldSettings(rows), request, failed)
  {
    if rows != [] {
      var n := |rows|;
      var init, last := rows[..n - 1], rows[n - 1];
      var updated := ApplyUpdates(rows, request, failed);
      FoldAfterUpdates(init, request, failed);
      assert updated[..n - 1] == ApplyUpdates(init, request, failed);
      var newLast := UpdatedRow(last, request, failed);
      assert updated[n - 1] == newLast;
      if last.name == PROTO_KEY {
        assert FoldSettings(updated) == Overlay(FoldSettings(init), request, failed);
        assert FoldSettings(rows) == FoldSettings(init);
      } else {
        assert FoldSettings(updated) == Overlay(FoldSettings(init), request, failed)[newLast.name := newLast.value];
        assert FoldSettings(rows) == FoldSettings(init)[last.name := last.value];
        OverlayUpdate(FoldSettings(init), request, failed, last.name, last.value);
      }
    }
  }

  lemma OverlayUpdate(before: map<string, string>, request: map<string, string>, failed: set<string>, name: string, value: string)
    ensures var shown := UpdatedRow(Setting(name, value), request, failed);
      Overlay(before, request, failed)[name := shown.value] == Overlay(before[name := value], request, failed)
  {
  }

  /** The rotation's UPDATE changes the daily password, if that row exists, and nothing else. */
  lemma RotationChangesOnlyDailyPassword(rows: seq<Setting>, password: string)
    ensures var before := FoldSettings(rows);
      FoldSettings(UpdateWhere(rows, DAILY_PASSWORD, password)) ==
        if DAILY_PASSWORD in before then before[DAILY_PASSWORD := password] else before
  {
    UpdateWhereIsSingleUpdate(rows, DAILY_PASSWORD, password);
    FoldAfterUpdates(rows, map[DAILY_PASSWORD := password], {});
    OverlaySingle(FoldSettings(rows), DAILY_PASSWORD, password);
  }

  /** Overlaying one name sets it if the map has it and otherwise changes nothing. */
  lemma OverlaySingle(before: map<string, string>, name: string, value: string)
    ensures Overlay(before, map[name := value], {}) == if name in before then before[name := value] else before
  {
    var after := Overlay(before, map[name := value], {});
    var expected := if name in before then before[name := value] else before;
    assert after.Keys == expected.Keys;
    forall k | k in after ensures after[k] == expected[k] {
    }
  }

  // ---------------------------------------------------------------------
  // nav_buttons
  // ---------------------------------------------------------------------

  /** A button as the client sends it in `buttons`. */
  datatype Button = Button(id: int, number: int, text: string, url: string)

  /** A row of `nav_buttons`. */
  datatype NavRow = NavRow(id: int, number: int, text: string, url: string, order: int)

  /** `buttons.map((btn, index) => [btn.id, btn.number, btn.text, btn.url, index])`. */
  function ToRows(buttons: seq<Button>): (rows: seq<NavRow>)
    ensures |rows| == |buttons|
    ensures forall i :: 0 <= i < |rows| ==> ButtonOf(rows[i]) == buttons[i] && rows[i].order == i
  {
    seq(|buttons|, i requires 0 <= i < |buttons| =>
      NavRow(buttons[i].id, buttons[i].number, buttons[i].text, buttons[i].url, i))
  }

  /** The button a row shows, without its `order`. */
  function ButtonOf(row: NavRow): Button
  {
    Button(row.id, row.number, row.text, row.url)
  }

  predicate SortedByOrder(rows: seq<NavRow>)
  {
    forall i, j :: 0 <= i < j < |rows| ==> rows[i].order <= rows[j].order
  }

  /** Puts `row` before the first row of a sorted sequence whose order is not smaller. */
  function Insert(row: NavRow, sorted: seq<NavRow>): (r: seq<NavRow>)
    ensures multiset(r) == multiset(sorted) + multiset{row}
    ensures forall x :: x in r <==> x == row || x in sorted
    ensures sorted != [] && row.order <= sorted[0].order ==> r == [row] + sorted
  {
    if sorted == [] || row.order <= sorted[0].order then [row] + sorted
    else
      assert sorted == [sorted[0]] + sorted[1..];
      [sorted[0]] + Insert(row, sorted[1..])
  }

  /** Every row of `rows` has an `order` of at least `bound`. */
  predicate OrdersAtLeast(bound: int, rows: seq<NavRow>)
  {
    forall x :: x in rows ==> bound <= x.order
  }

  /** Inserting into a sorted sequence keeps it sorted. */
  lemma {:induction false} InsertSorted(row: NavRow, sorted: seq<NavRow>)
    requires SortedByOrder(sorted)
    ensures SortedByOrder(Insert(row, sorted))
  {
    if sorted != [] && row.order > sorted[0].order {
      var head, rest := sorted[0], sorted[1..];
      assert SortedByOrder(rest) by {
        forall i, j | 0 <= i < j < |rest| ensures rest[i].order <= rest[j].order {
          assert rest[i] == sorted[i + 1] && rest[j] == sorted[j + 1];
        }
      }
      InsertSorted(row, rest);
      var tail := Insert(row, rest);
      forall x | x in tail ensures head.order <= x.order {
        if x != row {
          var j :| 0 <= j < |rest| && rest[j] == x;
          assert sorted[j + 1] == x;
        }
      }
      ConsSorted(head, tail);
    }
  }

  /** A row no later than every row of a sorted sequence can go in front of it. */
  lemma ConsSorted(head: NavRow, tail: seq<NavRow>)
    requires SortedByOrder(tail) && OrdersAtLeast(head.order, tail)
    ensures SortedByOrder([head] + tail)
  {
    var r := [head] + tail;
    forall i, j | 0 <= i < j < |r| ensures r[i].order <= r[j].order {
      assert r[j] == tail[j - 1];
      if i > 0 { assert r[i] == tail[i - 1]; }
    }
  }

  /**
   * `ORDER BY order`: the rows sorted by `order`, rows with equal `order`
   * keeping their storage order.
   */
  function SortByOrder(rows: seq<NavRow>): (sorted: seq<NavRow>)
    ensures SortedByOrder(sorted)
    ensures multiset(sorted) == multiset(rows)
  {
    if rows == [] then []
    else
      assert rows == [rows[0]] + rows[1..];
      InsertSorted(rows[0], SortByOrder(rows[1..]));
      Insert(rows[0], SortByOrder(rows[1..]))
  }

  /** Sorting rows already in `order` order changes nothing. */
  lemma {:induction false} SortSortedIsIdentity(rows: seq<NavRow>)
    requires SortedByOrder(rows)
    ensures SortByOrder(rows) == rows
  {
    if rows != [] {
      assert SortedByOrder(rows[1..]);
      SortSortedIsIdentity(rows[1..]);
      assert rows == [rows[0]] + rows[1..];
    }
  }

  /**
   * Listing the table by `order` right after a replace gives back the
   * client's buttons, in the client's sequence, with `order` 0..n-1.
   */
  lemma ListAfterReplace(buttons: seq<Button>)
    ensures SortByOrder(ToRows(buttons)) == ToRows(buttons)
    ensures forall i :: 0 <= i < |buttons| ==>
      ButtonOf(SortByOrder(ToRows(buttons))[i]) == buttons[i] && SortByOrder(ToRows(buttons))[i].order == i
  {
    SortSortedIsIdentity(ToRows(buttons));
  }

  // ---------------------------------------------------------------------
  // announcements
  // ---------------------------------------------------------------------

  /** A row of `announcements`; `createdAt` is the `NOW()` of its insertion. */
  datatype Announcement = Announcement(title: string, content: string, createdAt: int)

  /**
   * `ORDER BY created_at DESC LIMIT 1` then `results[0] || null`: the row
   * with the greatest `createdAt`, the later of equal ones, or None for an
   * empty table.
   */
  function Latest(rows: seq<Announcement>): (latest: Option<Announcement>)
    ensures latest.None? <==> rows == []
    ensures latest.Some? ==> latest.value in rows
    ensures latest.Some? ==> forall a :: a in rows ==> a.createdAt <= latest.value.createdAt
  {
    if rows == [] then None
    else
      var last := rows[|rows| - 1];
      var init := rows[..|rows| - 1];
      assert forall a :: a in rows ==> a in init || a == last by {
        assert rows == init + [last];
      }
      var before := Latest(init);
      assert before.Some? ==> before.value in rows;
      if before.None? || before.value.createdAt <= last.createdAt then Some(last) else before
  }

  /**
   * An announcement published at a time no earlier than any stored one is
   * the latest announcement afterwards.
   */
  lemma LatestAfterPublish(rows: seq<Announcement>, title: string, content: string, now: int)
    requires forall a :: a in rows ==> a.createdAt <= now
    ensures Latest(rows + [Announcement(title, content, now)]) == Some(Announcement(title, content, now))
  {
    assert (rows + [Announcement(title, content, now)])[..|rows|] == rows;
  }
}
