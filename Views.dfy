/** The views derived from the medicine list: the next reminders of the day,
    the doses due now, and the two counters of the dashboard. */
module Views {
  import opened TimeText
  import opened Medicines

  /** How many upcoming reminders the dashboard shows. */
  const UpcomingLimit: nat := 3

  /** The minute of the day an entry's reminder falls on. */
  function Key(e: Entry): (m: nat)
    ensures m < MinutesPerDay
  {
    ToMinutes(e.time)
  }

  function Abs(x: int): (a: nat)
    ensures a == x || a == -x
  {
    if x < 0 then -x else x
  }

  /** Active entries. */
  function IsActive(): Entry -> bool {
    (e: Entry) => e.status == Active
  }

  /** Entries whose reminder minute is not before `now`. */
  function NotBefore(now: int): Entry -> bool {
    (e: Entry) => ToMinutes(e.time) >= now
  }

  /** An entry is due exactly when it is active and its reminder minute is within one
      minute of `now`, on either side. */
  function DueAt(now: int): (keep: Entry -> bool)
    ensures forall e: Entry :: keep(e) <==> e.status == Active && Key(e) - 1 <= now <= Key(e) + 1
  {
    (e: Entry) => e.status == Active && Abs(now - ToMinutes(e.time)) <= 1
  }

  /** Active entries whose start date is `today`. */
  function ActiveStartingOn(today: Date): Entry -> bool {
    (e: Entry) => e.status == Active && IsToday(e.startDate, today)
  }

  ghost predicate SortedByTime(s: seq<Entry>) {
    forall i, j :: 0 <= i < j < |s| ==> Key(s[i]) <= Key(s[j])
  }

  /** Places `e` before the first entry of `s` that is not earlier than it. */
  function Insert(e: Entry, s: seq<Entry>): (r: seq<Entry>)
    ensures |r| == |s| + 1 && multiset(r) == multiset(s) + multiset{e}
    ensures forall i :: 0 <= i < |r| ==> r[i] == e || r[i] in s
  {
    if s == [] || Key(e) <= Key(s[0]) then [e] + s
    else
      assert s == [s[0]] + s[1..];
      [s[0]] + Insert(e, s[1..])
  }

  /** The tail of a sorted list is sorted and no earlier than its head. */
  lemma SortedTail(s: seq<Entry>)
    requires s != [] && SortedByTime(s)
    ensures SortedByTime(s[1..])
    ensures forall x | x in s[1..] :: Key(s[0]) <= Key(x)
  {
    var tail := s[1..];
    forall i | 0 <= i < |tail| ensures tail[i] == s[i + 1] { }
  }

  /** Prefixing a sorted list with an entry no later than any of it keeps it sorted. */
  lemma ConsSorted(x: Entry, s: seq<Entry>)
    requires SortedByTime(s)
    requires forall i | 0 <= i < |s| :: Key(x) <= Key(s[i])
    ensures SortedByTime([x] + s)
  {
    var r := [x] + s;
    forall i, j | 0 <= i < j < |r| ensures Key(r[i]) <= Key(r[j]) {
      assert r[j] == s[j - 1];
      if i > 0 { assert r[i] == s[i - 1]; }
    }
  }

  /** Inserting into a sorted list keeps it sorted. */
  lemma {:induction false} InsertSorted(e: Entry, s: seq<Entry>)
    requires SortedByTime(s)
    ensures SortedByTime(Insert(e, s))
  {
    if s == [] || Key(e) <= Key(s[0]) {
      ConsSorted(e, s);
    } else {
      var tail := s[1..];
      SortedTail(s);
      InsertSorted(e, tail);
      var rest := Insert(e, tail);
      assert forall i | 0 <= i < |rest| :: rest[i] == e || rest[i] in tail;
      ConsSorted(s[0], rest);
    }
  }

  /** Sorts by reminder minute, ascending; entries with the same minute keep their order. */
  function SortByTime(s: seq<Entry>): (r: seq<Entry>)
    ensures |r| == |s| && multiset(r) == multiset(s)
    ensures SortedByTime(r)
  {
    if s == [] then []
    else
      assert s == [s[0]] + s[1..];
      var sortedTail := SortByTime(s[1..]);
      InsertSorted(s[0], sortedTail);
      Insert(s[0], sortedTail)
  }

  /** The active entries whose reminder is not earlier than `now`, in list order. */
  function Candidates(s: seq<Entry>, now: int): (r: seq<Entry>)
    ensures |r| <= |s|
    ensures forall i :: 0 <= i < |r| ==> r[i] in s && r[i].status == Active && Key(r[i]) >= now
  {
    Filter(Filter(s, IsActive()), NotBefore(now))
  }

  /** The upcoming-reminders view: candidates sorted by time, the first three of them. */
  function Upcoming(s: seq<Entry>, now: int): (r: seq<Entry>)
    ensures |r| <= UpcomingLimit
  {
    var sorted := SortByTime(Candidates(s, now));
    if |sorted| <= UpcomingLimit then sorted else sorted[..UpcomingLimit]
  }

  /** An entry is a candidate exactly when it is in the list, active, and not yet past. */
  lemma CandidateCount(s: seq<Entry>, now: int, e: Entry)
    ensures multiset(Candidates(s, now))[e] ==
            if e.status == Active && Key(e) >= now then multiset(s)[e] else 0
  {
    FilterCount(s, IsActive(), e);
    FilterCount(Filter(s, IsActive()), NotBefore(now), e);
  }

  /** The view is the head of the sorted candidates: three of them, or all when fewer. */
  lemma UpcomingPrefix(s: seq<Entry>, now: int)
    ensures var sorted := SortByTime(Candidates(s, now));
      && Upcoming(s, now) == sorted[..|Upcoming(s, now)|]
      && |Upcoming(s, now)| == (if |sorted| <= UpcomingLimit then |sorted| else UpcomingLimit)
  {
  }

  lemma PrefixSorted(s: seq<Entry>, n: nat)
    requires SortedByTime(s) && n <= |s|
    ensures SortedByTime(s[..n])
  {
    forall i, j | 0 <= i < j < n ensures Key(s[..n][i]) <= Key(s[..n][j]) {
      assert s[..n][i] == s[i] && s[..n][j] == s[j];
    }
  }

  lemma TakeSubmultiset(t: seq<Entry>, n: nat)
    requires n <= |t|
    ensures multiset(t[..n]) <= multiset(t)
  {
    assert t == t[..n] + t[n..];
  }

  /** The view holds no entry more often than the candidates do. */
  lemma UpcomingInCandidates(s: seq<Entry>, now: int)
    ensures multiset(Upcoming(s, now)) <= multiset(Candidates(s, now))
  {
    UpcomingPrefix(s, now);
    TakeSubmultiset(SortByTime(Candidates(s, now)), |Upcoming(s, now)|);
  }

  /** The view lists its reminders soonest first. */
  lemma UpcomingSorted(s: seq<Entry>, now: int)
    ensures SortedByTime(Upcoming(s, now))
  {
    UpcomingPrefix(s, now);
    PrefixSorted(SortByTime(Candidates(s, now)), |Upcoming(s, now)|);
  }

  /** The view lists only active entries whose reminder is not yet past. */
  lemma UpcomingActive(s: seq<Entry>, now: int)
    ensures forall e | e in Upcoming(s, now) :: e.status == Active && Key(e) >= now
  {
    var c := Candidates(s, now);
    var r := Upcoming(s, now);
    UpcomingInCandidates(s, now);
    forall e | e in r ensures e.status == Active && Key(e) >= now {
      assert multiset(r)[e] > 0;
      CandidateCount(s, now, e);
    }
  }

  /** Every entry in the view comes from the active entries, and no more often. */
  lemma UpcomingSubmultiset(s: seq<Entry>, now: int)
    ensures multiset(Upcoming(s, now)) <= multiset(Filter(s, IsActive()))
  {
    UpcomingInCandidates(s, now);
    FilterSubmultiset(Filter(s, IsActive()), NotBefore(now));
  }

  /** Removing the first `n` entries' multiset from the whole leaves the rest's multiset. */
  lemma TakeDropMultiset(t: seq<Entry>, n: nat)
    requires n <= |t|
    ensures multiset(t) - multiset(t[..n]) == multiset(t[n..])
  {
    assert t == t[..n] + t[n..];
  }

  /** In a sorted list, whatever lies beyond the first `n` is no earlier than those `n`. */
  lemma SortedTakeEarliest(t: seq<Entry>, n: nat)
    requires SortedByTime(t) && n <= |t|
    ensures forall e, x | e in multiset(t) - multiset(t[..n]) && x in t[..n] :: Key(x) <= Key(e)
  {
    TakeDropMultiset(t, n);
    SortedSplit(t, n);
  }

  lemma SortedSplit(t: seq<Entry>, n: nat)
    requires SortedByTime(t) && n <= |t|
    ensures forall e, x | e in t[n..] && x in t[..n] :: Key(x) <= Key(e)
  {
    forall e, x | e in t[n..] && x in t[..n] ensures Key(x) <= Key(e) {
      var k :| 0 <= k < |t[n..]| && t[n..][k] == e;
      var i :| 0 <= i < n && t[..n][i] == x;
      assert t[i] == x && t[n + k] == e;
    }
  }

  /** Every candidate the view leaves out is no earlier than every entry it shows. */
  lemma UpcomingEarliest(s: seq<Entry>, now: int)
    ensures forall e, x | e in multiset(Candidates(s, now)) - multiset(Upcoming(s, now)) && x in Upcoming(s, now) ::
      Key(x) <= Key(e)
  {
    UpcomingPrefix(s, now);
    SortedTakeEarliest(SortByTime(Candidates(s, now)), |Upcoming(s, now)|);
  }

  /** Two active doses at nine and at eight are listed eight first at seven in the morning. */
  lemma UpcomingOrdersByTime(nine: Entry, eight: Entry)
    requires nine.time == "09:00" && eight.time == "08:00"
    requires nine.status == Active && eight.status == Active
    ensures Upcoming([nine, eight], 7 * 60) == [eight, nine]
  {
    assert Key(nine) == 540 && Key(eight) == 480;
    var s := [nine, eight];
    FilterUnchanged(s, IsActive());
    FilterUnchanged(s, NotBefore(420));
    assert Candidates(s, 420) == s;
    assert SortByTime(s[1..]) == [eight];
  }

  // ---------------------------------------------------------------------------
  // Due check

  /** The entries a reminder poll at minute `now` announces, in list order. */
  function DueEntries(s: seq<Entry>, now: int): (r: seq<Entry>)
    ensures forall i :: 0 <= i < |r| ==> r[i] in s && r[i].status == Active
  {
    Filter(s, DueAt(now))
  }

  /** A poll reports each due entry as often as it occurs in the list, and nothing else. */
  lemma DueCount(s: seq<Entry>, now: int, e: Entry)
    ensures multiset(DueEntries(s, now))[e] ==
            if e.status == Active && Key(e) - 1 <= now <= Key(e) + 1 then multiset(s)[e] else 0
  {
    FilterCount(s, DueAt(now), e);
  }

  /** Polling one more entry adds it at the end exactly when it is due. */
  lemma DueEntriesSnoc(s: seq<Entry>, m: Entry, now: int)
    ensures DueEntries(s + [m], now) == DueEntries(s, now) + (if DueAt(now)(m) then [m] else [])
  {
    FilterAppend(s, [m], DueAt(now));
    FilterStep([m], DueAt(now));
  }

  /** A dose at eight is announced at eight and not at five past eight. */
  lemma DueAtEight(e: Entry)
    requires e.time == "08:00" && e.status == Active
    ensures DueEntries([e], 8 * 60) == [e]
    ensures DueEntries([e], 8 * 60 + 5) == []
  {
    assert Key(e) == 480;
    FilterStep([e], DueAt(480));
    FilterStep([e], DueAt(485));
  }

  /** The window does not wrap at midnight: a dose at 00:00 is not announced at 23:59. */
  lemma DueWindowStopsAtMidnight(e: Entry)
    requires e.time == "00:00" && e.status == Active
    ensures DueEntries([e], MinutesPerDay - 1) == []
  {
    assert Key(e) == 0;
    FilterStep([e], DueAt(MinutesPerDay - 1));
  }

  // ---------------------------------------------------------------------------
  // Statistics

  /** The dashboard counters: all entries, and active entries that start today. */
  datatype Stats = Stats(total: nat, today: nat)

  function ComputeStats(s: seq<Entry>, today: Date): (r: Stats)
    ensures r.total == |s| && r.today <= r.total
  {
    Stats(|s|, |Filter(s, ActiveStartingOn(today))|)
  }

  /** Each active entry starting today is counted as often as it occurs, and nothing else. */
  lemma TodayCount(s: seq<Entry>, today: Date, e: Entry)
    ensures multiset(Filter(s, ActiveStartingOn(today)))[e] ==
            if e.status == Active && e.startDate == today then multiset(s)[e] else 0
  {
    FilterCount(s, ActiveStartingOn(today), e);
  }

  /** Adding an entry raises the total by one, and the today counter by one exactly when
      the new entry is active and starts today. */
  lemma StatsAfterAppend(s: seq<Entry>, e: Entry, today: Date)
    ensures ComputeStats(s + [e], today).total == ComputeStats(s, today).total + 1
    ensures ComputeStats(s + [e], today).today ==
            ComputeStats(s, today).today + (if e.status == Active && e.startDate == today then 1 else 0)
  {
    var c := ActiveStartingOn(today);
    FilterAppend(s, [e], c);
    FilterStep([e], c);
  }
}
