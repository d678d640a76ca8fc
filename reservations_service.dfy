/**
 * The reservations table and the queries the back end runs on it: the
 * dashboard's list for one date, the phone-number search, lookup by id, and
 * the three writes (insert, status change, update of the columns given).
 */
module ReservationsService {
  import opened Wrappers
  import opened Calendar
  import opened Text

  /** One row of the reservations table. */
  datatype Reservation = Reservation(
    reservationId: int,
    firstName: string,
    lastName: string,
    mobileNumber: string,
    reservationDate: Date,
    reservationTime: Time,
    people: int,
    status: string)

  /** The status a reservation has once its table is released; `list` hides it. */
  const Finished: string := "finished"

  /** The rows, in table order, for which `p` holds: a SQL `where`. */
  function Where(rows: seq<Reservation>, p: Reservation -> bool): (r: seq<Reservation>)
    ensures forall x :: x in r <==> x in rows && p(x)
    ensures forall x :: multiset(r)[x] == if p(x) then multiset(rows)[x] else 0
  {
    if rows == [] then []
    else
      assert rows == [rows[0]] + rows[1..];
      if p(rows[0]) then [rows[0]] + Where(rows[1..], p) else Where(rows[1..], p)
  }

  /** `s` is in non-decreasing order of `key`. */
  ghost predicate SortedBy(s: seq<Reservation>, key: Reservation -> int) {
    forall i, j :: 0 <= i < j < |s| ==> key(s[i]) <= key(s[j])
  }

  /** Insert `x` into a sorted sequence, after the rows whose key is smaller. */
  function InsertBy(x: Reservation, s: seq<Reservation>, key: Reservation -> int): (r: seq<Reservation>)
    requires SortedBy(s, key)
    ensures SortedBy(r, key)
    ensures multiset(r) == multiset(s) + multiset{x}
  {
    if s == [] then [x]
    else if key(x) <= key(s[0]) then [x] + s
    else
      assert s == [s[0]] + s[1..];
      var rest := InsertBy(x, s[1..], key);
      InsertedAfterHead(x, s, rest, key);
      [s[0]] + rest
  }

  /** What InsertBy puts after the head of `s` has keys no smaller than the head's. */
  lemma InsertedAfterHead(x: Reservation, s: seq<Reservation>, rest: seq<Reservation>, key: Reservation -> int)
    requires s != [] && SortedBy(s, key) && key(s[0]) < key(x)
    requires multiset(rest) == multiset(s[1..]) + multiset{x}
    ensures forall j :: 0 <= j < |rest| ==> key(s[0]) <= key(rest[j])
  {
    forall j | 0 <= j < |rest| ensures key(s[0]) <= key(rest[j]) {
      assert rest[j] in multiset(rest);
      if rest[j] != x {
        assert rest[j] in multiset(s[1..]);
        var k :| 0 <= k < |s[1..]| && s[1..][k] == rest[j];
        assert s[k + 1] == rest[j];
      }
    }
  }

  /** `orderBy(key)`: a permutation of the rows, sorted by `key`. How ties are broken is not fixed. */
  function SortBy(s: seq<Reservation>, key: Reservation -> int): (r: seq<Reservation>)
    ensures SortedBy(r, key)
    ensures multiset(r) == multiset(s)
  {
    if s == [] then []
    else
      assert s == [s[0]] + s[1..];
      InsertBy(s[0], SortBy(s[1..], key), key)
  }

  /** The sort key of `orderBy("reservation_time")`. */
  function TimeKey(r: Reservation): int {
    MinuteOfDay(r.reservationTime)
  }

  /** The sort key of `orderBy("reservation_date")`. */
  function DateSortKey(r: Reservation): int {
    Calendar.DateKey(r.reservationDate)
  }

  /** The rows `list(date)` keeps: that date, and not finished. */
  predicate Listed(r: Reservation, date: Date) {
    r.reservationDate == date && r.status != Finished
  }

  /** `list(reservation_date)`: the day's reservations that are not finished, by time of day. */
  function List(rows: seq<Reservation>, date: Date): (r: seq<Reservation>)
    ensures forall x :: x in r ==> x in rows && Listed(x, date)
    ensures SortedBy(r, TimeKey)
  {
    var kept := Where(rows, x => Listed(x, date));
    var sorted := SortBy(kept, TimeKey);
    assert forall x :: x in sorted ==> x in multiset(kept);
    sorted
  }

  /** `list` returns exactly the rows of that date whose status is not "finished", each as often as stored. */
  lemma ListKeepsExactly(rows: seq<Reservation>, date: Date)
    ensures forall x :: x in List(rows, date) <==> x in rows && x.reservationDate == date && x.status != Finished
    ensures forall x :: multiset(List(rows, date))[x] == if Listed(x, date) then multiset(rows)[x] else 0
  {
    var kept := Where(rows, x => Listed(x, date));
    assert forall x :: x in List(rows, date) <==> x in multiset(kept);
  }

  /** Seated and cancelled reservations of the date stay on the dashboard. */
  lemma ListShowsSeatedAndCancelled(rows: seq<Reservation>, date: Date, x: Reservation)
    requires x in rows && x.reservationDate == date
    requires x.status == "seated" || x.status == "cancelled" || x.status == "booked"
    ensures x in List(rows, date)
  {
    ListKeepsExactly(rows, date);
  }

  /** `list` is ordered by reservation time, earliest first. */
  lemma ListSortedByTime(rows: seq<Reservation>, date: Date)
    ensures forall i, j :: 0 <= i < j < |List(rows, date)| ==>
              MinuteOfDay(List(rows, date)[i].reservationTime) <= MinuteOfDay(List(rows, date)[j].reservationTime)
  {
    assert SortedBy(List(rows, date), TimeKey);
  }

  /** The characters `translate(mobile_number, '() -', '')` removes. */
  predicate IsSeparator(c: char) {
    c == '(' || c == ')' || c == ' ' || c == '-'
  }

  /** `mobile_phone.replace(/\D/g, "")`: the query's digits. */
  function QueryDigits(query: string): (d: string)
    ensures forall i :: 0 <= i < |d| ==> IsDigit(d[i])
  {
    Keep(query, IsDigit)
  }

  /** The query keeps every digit it has, and nothing else. */
  lemma QueryDigitsMembers(query: string)
    ensures forall c :: c in QueryDigits(query) <==> c in query && IsDigit(c)
  {
    KeepMembers(query, IsDigit);
  }

  /** `translate(mobile_number, '() -', '')`: the stored number without its separators. */
  function StripSeparators(number: string): (s: string)
    ensures forall i :: 0 <= i < |s| ==> !IsSeparator(s[i])
  {
    Keep(number, IsKept)
  }

  /** The characters `translate(mobile_number, '() -', '')` keeps. */
  predicate IsKept(c: char) {
    !IsSeparator(c)
  }

  /** Only the four separators go; letters, dots and plus signs stay and take part in the match. */
  lemma StripSeparatorsMembers(number: string)
    ensures forall c :: c in StripSeparators(number) <==> c in number && !IsSeparator(c)
  {
    KeepMembers(number, IsKept);
  }

  /** A row matches a search when the query's digits occur in its stripped number. */
  predicate MatchesPhone(r: Reservation, query: string) {
    NumberMatches(r.mobileNumber, query)
  }

  /** A stored number matches a query when the query's digits occur in the number without its separators. */
  predicate NumberMatches(number: string, query: string) {
    Contains(StripSeparators(number), QueryDigits(query))
  }

  /** `search(mobile_phone)`: the rows whose number contains the query's digits, by date. */
  function Search(rows: seq<Reservation>, query: string): (r: seq<Reservation>)
    ensures forall x :: x in r ==> x in rows && MatchesPhone(x, query)
    ensures SortedBy(r, DateSortKey)
  {
    var kept := Where(rows, x => MatchesPhone(x, query));
    var sorted := SortBy(kept, DateSortKey);
    assert forall x :: x in sorted ==> x in multiset(kept);
    sorted
  }

  /** A row is found exactly when the query's digits are a substring of its number with the separators removed. */
  lemma SearchFindsExactly(rows: seq<Reservation>, query: string)
    ensures forall x :: x in Search(rows, query) <==>
              x in rows && OccursIn(QueryDigits(query), StripSeparators(x.mobileNumber))
    ensures forall x :: multiset(Search(rows, query))[x] == if MatchesPhone(x, query) then multiset(rows)[x] else 0
  {
    var kept := Where(rows, x => MatchesPhone(x, query));
    assert forall x :: x in Search(rows, query) <==> x in multiset(kept);
  }

  /** A query without digits becomes the pattern `%%`, which every row matches. */
  lemma SearchWithoutDigitsFindsAll(rows: seq<Reservation>, query: string)
    requires forall i :: 0 <= i < |query| ==> !IsDigit(query[i])
    ensures multiset(Search(rows, query)) == multiset(rows)
  {
    KeepNone(query, IsDigit);
    SearchFindsExactly(rows, query);
    assert forall x :: MatchesPhone(x, query);
  }

  /** `search` is ordered by reservation date, earliest first. */
  lemma SearchSortedByDate(rows: seq<Reservation>, query: string)
    ensures forall i, j :: 0 <= i < j < |Search(rows, query)| ==>
              Calendar.DateKey(Search(rows, query)[i].reservationDate)
                <= Calendar.DateKey(Search(rows, query)[j].reservationDate)
  {
    assert SortedBy(Search(rows, query), DateSortKey);
  }

  // The examples below take the digit groups of 808-555-1212 as parameters pinned
  // by `requires`: with the literals written inline the verifier unfolds the
  // character filter over every character, at a far higher cost than these
  // general lemmas about the groups.

  /** Separators between the groups of a number vanish: it compares as its groups run together. */
  lemma {:induction false} StripAroundSeparator(a: string, sep: char, b: string)
    requires IsSeparator(sep)
    ensures StripSeparators(a + [sep] + b) == StripSeparators(a) + StripSeparators(b)
  {
    KeepAppend(a + [sep], b, IsKept);
    KeepAppend(a, [sep], IsKept);
  }

  /** A query's hyphens vanish too: its digit groups run together. */
  lemma {:induction false} QueryAroundHyphen(a: string, b: string)
    ensures QueryDigits(a + "-" + b) == QueryDigits(a) + QueryDigits(b)
  {
    KeepAppend(a + "-", b, IsDigit);
    KeepAppend(a, "-", IsDigit);
  }

  /** A number written as digit groups joined by hyphens, such as 808-555-1212, compares as its digits alone. */
  lemma HyphenatedNumber(a: string, b: string, c: string)
    requires forall i :: 0 <= i < |a| ==> IsDigit(a[i])
    requires forall i :: 0 <= i < |b| ==> IsDigit(b[i])
    requires forall i :: 0 <= i < |c| ==> IsDigit(c[i])
    ensures StripSeparators(a + "-" + b + "-" + c) == a + b + c
  {
    StripAroundSeparator(a + "-" + b, '-', c);
    StripAroundSeparator(a, '-', b);
    KeepAll(a, IsKept);
    KeepAll(b, IsKept);
    KeepAll(c, IsKept);
  }

  /** The stored number 808-555-1212 is found by the whole local number "5551212". */
  lemma SearchExampleFullNumber(area: string, exchange: string, line: string)
    requires area == "808" && exchange == "555" && line == "1212"
    ensures NumberMatches(area + "-" + exchange + "-" + line, exchange + line)
  {
    HyphenatedNumber(area, exchange, line);
    KeepAll(exchange + line, IsDigit);
    assert area + exchange + line == area + (exchange + line) + "";
    OccursInMiddle(area, exchange + line, "");
  }

  /** The stored number 808-555-1212 is found by the fragment "555-121": the query's hyphen is ignored. */
  lemma SearchExampleFragment(area: string, exchange: string, line: string)
    requires area == "808" && exchange == "555" && line == "1212"
    ensures NumberMatches(area + "-" + exchange + "-" + line, exchange + "-" + line[..3])
  {
    HyphenatedNumber(area, exchange, line);
    QueryAroundHyphen(exchange, line[..3]);
    KeepAll(exchange, IsDigit);
    KeepAll(line[..3], IsDigit);
    assert area + exchange + line == area + (exchange + line[..3]) + line[3..];
    OccursInMiddle(area, exchange + line[..3], line[3..]);
  }

  /** A query digit that the stored number lacks rules the row out. */
  lemma MissingDigitNeverMatches(number: string, query: string, d: char)
    requires IsDigit(d) && d in query && d !in number
    ensures !NumberMatches(number, query)
  {
    QueryDigitsMembers(query);
    StripSeparatorsMembers(number);
  }

  /** The stored number 808-555-1212 is not found by "9999": it has no 9. */
  lemma SearchExampleThatMisses(number: string)
    requires number == "808-555-1212"
    ensures !NumberMatches(number, "9999")
  {
    assert '9' in "9999" && '9' !in number;
    MissingDigitNeverMatches(number, "9999", '9');
  }

  /** `read(reservation_id)`: the first row with that id, if there is one. */
  function Read(rows: seq<Reservation>, id: int): (r: Option<Reservation>)
    ensures r.Some? <==> exists i :: 0 <= i < |rows| && rows[i].reservationId == id
    ensures r.Some? ==> r.value in rows && r.value.reservationId == id
  {
    if rows == [] then None
    else if rows[0].reservationId == id then Some(rows[0])
    else
      var rest := Read(rows[1..], id);
      assert forall i :: 1 <= i < |rows| ==> rows[i] == rows[1..][i - 1];
      rest
  }

  /** No two rows share a reservation id (the primary key). */
  ghost predicate UniqueIds(rows: seq<Reservation>) {
    forall i, j :: 0 <= i < j < |rows| ==> rows[i].reservationId != rows[j].reservationId
  }

  /** Under a unique key, `read` finds the one row with that id. */
  lemma ReadFindsTheRow(rows: seq<Reservation>, i: int)
    requires UniqueIds(rows) && 0 <= i < |rows|
    ensures Read(rows, rows[i].reservationId) == Some(rows[i])
  {
    var r := Read(rows, rows[i].reservationId);
    var k :| 0 <= k < |rows| && rows[k] == r.value;
  }

  /**
   * The rows keyed by their primary key: the map view of the table that the
   * tables controller holds, where `reservationExists` asks `read`.
   */
  function ById(rows: seq<Reservation>): (m: map<int, Reservation>)
    requires UniqueIds(rows)
    ensures forall i :: 0 <= i < |rows| ==> rows[i].reservationId in m && m[rows[i].reservationId] == rows[i]
    ensures forall id :: id in m ==> exists i :: 0 <= i < |rows| && rows[i].reservationId == id
  {
    map i | 0 <= i < |rows| :: rows[i].reservationId := rows[i]
  }

  /** The two views agree: `read` finds a row exactly when the keyed map holds it under that id. */
  lemma ReadAgreesWithById(rows: seq<Reservation>, id: int)
    requires UniqueIds(rows)
    ensures Read(rows, id) == if id in ById(rows) then Some(ById(rows)[id]) else None
  {
    if id in ById(rows) {
      var i :| 0 <= i < |rows| && rows[i].reservationId == id;
      ReadFindsTheRow(rows, i);
    }
  }

  /**
   * The object handed to `updateReservation`: the id that selects the row, and
   * each other column it carries (None for a column it leaves out).
   */
  datatype ReservationPatch = ReservationPatch(
    reservationId: int,
    firstName: Option<string>,
    lastName: Option<string>,
    mobileNumber: Option<string>,
    reservationDate: Option<Date>,
    reservationTime: Option<Time>,
    people: Option<int>,
    status: Option<string>)

  /** The row after `update(patch)`: every column the patch carries is written, every other column is kept. */
  function Merge(row: Reservation, patch: ReservationPatch): (r: Reservation)
    ensures r.reservationId == row.reservationId
  {
    Reservation(
      row.reservationId,
      patch.firstName.GetOr(row.firstName),
      patch.lastName.GetOr(row.lastName),
      patch.mobileNumber.GetOr(row.mobileNumber),
      patch.reservationDate.GetOr(row.reservationDate),
      patch.reservationTime.GetOr(row.reservationTime),
      patch.people.GetOr(row.people),
      patch.status.GetOr(row.status))
  }

  /** The patch that carries every column of `x`, as the edit screen sends the whole loaded row. */
  function FullPatch(x: Reservation): ReservationPatch {
    ReservationPatch(x.reservationId, Some(x.firstName), Some(x.lastName), Some(x.mobileNumber),
      Some(x.reservationDate), Some(x.reservationTime), Some(x.people), Some(x.status))
  }

  /** A patch with no column besides the id. */
  function EmptyPatch(id: int): ReservationPatch {
    ReservationPatch(id, None, None, None, None, None, None, None)
  }

  /** A patch carrying a whole row replaces the stored row with it. */
  lemma MergeFullPatch(row: Reservation, x: Reservation)
    requires row.reservationId == x.reservationId
    ensures Merge(row, FullPatch(x)) == x
  {
  }

  /** A patch without columns leaves the row as it was. */
  lemma MergeEmptyPatch(row: Reservation)
    ensures Merge(row, EmptyPatch(row.reservationId)) == row
  {
  }

  /** Writing the same patch twice changes nothing more. */
  lemma MergeIdempotent(row: Reservation, patch: ReservationPatch)
    ensures Merge(Merge(row, patch), patch) == Merge(row, patch)
  {
  }

  /** A patch of the party size alone changes `people` and nothing else. */
  lemma MergePeopleOnly(row: Reservation, people: int)
    ensures Merge(row, EmptyPatch(row.reservationId).(people := Some(people))) == row.(people := people)
  {
  }

  /** The reservations table, with the serial counter that numbers new rows. */
  class ReservationTable {
    var rows: seq<Reservation>
    var nextId: int

    ghost predicate Valid()
      reads this
    {
      UniqueIds(rows) && forall i :: 0 <= i < |rows| ==> rows[i].reservationId < nextId
    }

    constructor ()
      ensures Valid() && rows == [] && nextId == 1
    {
      rows := [];
      nextId := 1;
    }

    /** `read(reservation_id)` against the current rows. */
    function ReadRow(id: int): (r: Option<Reservation>)
      reads this
      requires Valid()
      ensures r.Some? <==> exists i :: 0 <= i < |rows| && rows[i].reservationId == id
      ensures r.Some? ==> r.value in rows && r.value.reservationId == id
    {
      Read(rows, id)
    }

    /** `create(newReservation)`: insert the row under the next serial id and return it. */
    method Create(fields: Reservation) returns (created: Reservation)
      requires Valid()
      modifies this
      ensures Valid()
      ensures created == fields.(reservationId := old(nextId))
      ensures rows == old(rows) + [created] && nextId == old(nextId) + 1
      ensures Read(rows, created.reservationId) == Some(created)
    {
      created := fields.(reservationId := nextId);
      rows := rows + [created];
      nextId := nextId + 1;
      ReadFindsTheRow(rows, |rows| - 1);
    }

    /** `updateStatus(reservation_id, status)`: set the status of the row with that id and return it. */
    method UpdateStatus(id: int, status: string) returns (updated: Option<Reservation>)
      requires Valid()
      modifies this
      ensures Valid() && nextId == old(nextId)
      ensures |rows| == |old(rows)|
      ensures forall i :: 0 <= i < |rows| ==>
                rows[i] == if old(rows)[i].reservationId == id then old(rows)[i].(status := status) else old(rows)[i]
      ensures updated.Some? <==> old(Read(rows, id)).Some?
      ensures updated.Some? ==> updated.value == old(Read(rows, id)).value.(status := status)
    {
      var before := rows;
      rows := seq(|before|, i requires 0 <= i < |before| =>
        if before[i].reservationId == id then before[i].(status := status) else before[i]);
      updated := Read(rows, id);
      if updated.Some? {
        var k :| 0 <= k < |rows| && rows[k] == updated.value;
        ReadFindsTheRow(before, k);
      }
    }

    /** `updateReservation(reservation)`: write the columns it carries into the row with its id and return that row. */
    method UpdateReservation(patch: ReservationPatch) returns (updated: Option<Reservation>)
      requires Valid()
      modifies this
      ensures Valid() && nextId == old(nextId)
      ensures |rows| == |old(rows)|
      ensures forall i :: 0 <= i < |rows| ==>
                rows[i] == if old(rows)[i].reservationId == patch.reservationId then Merge(old(rows)[i], patch) else old(rows)[i]
      ensures updated.Some? <==> old(Read(rows, patch.reservationId)).Some?
      ensures updated.Some? ==> updated.value == Merge(old(Read(rows, patch.reservationId)).value, patch)
    {
      var before := rows;
      rows := seq(|before|, i requires 0 <= i < |before| =>
        if before[i].reservationId == patch.reservationId then Merge(before[i], patch) else before[i]);
      updated := Read(rows, patch.reservationId);
      if updated.Some? {
        var k :| 0 <= k < |rows| && rows[k] == updated.value;
        ReadFindsTheRow(before, k);
      }
    }
  }
}
