/** Medicine entries, how a new entry is built from the form, and the
    selections (filters) that the list operations and views are made of. */
module Medicines {
  import opened Optional
  import opened TimeText

  datatype Status = Active | Completed

  /** A calendar date as day, month and year; the clock's "now" and an entry's start date. */
  datatype Date = Date(year: int, month: int, day: int)

  datatype Entry = Entry(
    id: int,
    name: string,
    kind: string,
    dosage: string,
    frequency: string,
    time: Time,            // the daily reminder time, "HH:MM"
    startDate: Date,
    endDate: Option<Date>, // None for an ongoing course
    notes: string,
    status: Status,
    nextDose: string)      // the next dose shown on the card; see NextDoseShown

  /** The fields the add form supplies. */
  datatype Form = Form(
    name: string,
    kind: string,
    dosage: string,
    frequency: string,
    time: Time,
    startDate: Date,
    endDate: Option<Date>,
    notes: string)

  /** Two dates fall on the same day when day, month and year all agree. */
  function IsToday(d1: Date, d2: Date): (r: bool)
    ensures r <==> d1 == d2
  {
    d1.day == d2.day && d1.month == d2.month && d1.year == d2.year
  }

  /** Every card shows its reminder time as the next dose while active, and nothing once
      the course is completed. */
  ghost predicate NextDoseShown(s: seq<Entry>) {
    forall i :: 0 <= i < |s| ==> s[i].nextDose == if s[i].status == Active then s[i].time else ""
  }

  /** What every list the tracker holds satisfies: no two entries share an id. */
  ghost predicate UniqueIds(s: seq<Entry>) {
    forall i, j :: 0 <= i < j < |s| ==> s[i].id != s[j].id
  }

  /** The largest id of a non-empty list. */
  function MaxId(s: seq<Entry>): (m: int)
    requires |s| > 0
    ensures forall i :: 0 <= i < |s| ==> s[i].id <= m
    ensures exists i :: 0 <= i < |s| && s[i].id == m
  {
    if |s| == 1 then s[0].id
    else
      var rest := MaxId(s[1..]);
      assert forall i :: 1 <= i < |s| ==> s[i] == s[1..][i - 1];
      if s[0].id >= rest then s[0].id else rest
  }

  /** The id a new entry receives: one more than the largest id, or 1 for an empty list. */
  function NextId(s: seq<Entry>): (id: int)
    ensures forall i :: 0 <= i < |s| ==> s[i].id < id
    ensures |s| == 0 ==> id == 1
    ensures |s| > 0 ==> exists i :: 0 <= i < |s| && s[i].id == id - 1
  {
    if |s| > 0 then MaxId(s) + 1 else 1
  }

  /** The entry the submit handler builds from the form for the current list. */
  function NewEntry(s: seq<Entry>, f: Form): (e: Entry)
    ensures forall i :: 0 <= i < |s| ==> s[i].id < e.id
    ensures |s| == 0 ==> e.id == 1
    ensures e.status == Active && e.nextDose == e.time == f.time
    ensures e.name == f.name && e.kind == f.kind && e.dosage == f.dosage && e.frequency == f.frequency
    ensures e.startDate == f.startDate && e.endDate == f.endDate && e.notes == f.notes
  {
    Entry(NextId(s), f.name, f.kind, f.dosage, f.frequency, f.time, f.startDate, f.endDate, f.notes,
          Active, f.time)
  }

  /** Appending the new entry keeps ids unique. */
  lemma AddKeepsUniqueIds(s: seq<Entry>, f: Form)
    requires UniqueIds(s)
    ensures UniqueIds(s + [NewEntry(s, f)])
  {
    var t := s + [NewEntry(s, f)];
    forall i, j | 0 <= i < j < |t| ensures t[i].id != t[j].id {
      if j == |s| { assert t[i] == s[i]; }
    }
  }

  // ---------------------------------------------------------------------------
  // Selections

  /** The entries delete keeps: those with another id. */
  function OtherId(id: int): Entry -> bool {
    (e: Entry) => e.id != id
  }

  /** What the first entry of a non-empty list contributes to its filtered list. */
  function Head(s: seq<Entry>, keep: Entry -> bool): seq<Entry>
    requires s != []
  {
    if keep(s[0]) then [s[0]] else []
  }

  /** The entries `keep` accepts, in their order in `s`. */
  function Filter(s: seq<Entry>, keep: Entry -> bool): (r: seq<Entry>)
    ensures |r| <= |s|
    ensures forall i :: 0 <= i < |r| ==> r[i] in s && keep(r[i])
  {
    if s == [] then []
    else Head(s, keep) + Filter(s[1..], keep)
  }

  /** One step of Filter: the head's contribution followed by the filtered tail. */
  lemma FilterStep(s: seq<Entry>, keep: Entry -> bool)
    requires s != []
    ensures Filter(s, keep) == Head(s, keep) + Filter(s[1..], keep)
  {
  }

  /** Filtering keeps each accepted entry exactly as often as it occurs, and no other. */
  lemma {:induction false} FilterCount(s: seq<Entry>, keep: Entry -> bool, e: Entry)
    ensures multiset(Filter(s, keep))[e] == if keep(e) then multiset(s)[e] else 0
  {
    if s != [] {
      var tail := s[1..];
      FilterStep(s, keep);
      FilterCount(tail, keep, e);
      assert s == [s[0]] + tail;
      assert multiset(s) == multiset{s[0]} + multiset(tail);
      assert multiset(Filter(s, keep)) == multiset(Head(s, keep)) + multiset(Filter(tail, keep));
    }
  }

  /** Filtering keeps the survivors' order: it distributes over concatenation. */
  lemma {:induction false} FilterAppend(a: seq<Entry>, b: seq<Entry>, keep: Entry -> bool)
    ensures Filter(a + b, keep) == Filter(a, keep) + Filter(b, keep)
  {
    if a == [] {
      assert a + b == b;
    } else {
      var ab := a + b;
      assert ab[0] == a[0] && ab[1..] == a[1..] + b;
      var h, fa, fb := Head(a, keep), Filter(a[1..], keep), Filter(b, keep);
      calc {
        Filter(ab, keep);
        { FilterStep(ab, keep); }
        Head(ab, keep) + Filter(a[1..] + b, keep);
        { FilterAppend(a[1..], b, keep); }
        h + (fa + fb);
        (h + fa) + fb;
        { FilterStep(a, keep); }
        Filter(a, keep) + fb;
      }
    }
  }

  /** A list is left as it is exactly when `keep` accepts every entry. */
  lemma {:induction false} FilterUnchanged(s: seq<Entry>, keep: Entry -> bool)
    ensures Filter(s, keep) == s <==> forall i :: 0 <= i < |s| ==> keep(s[i])
  {
    if s != [] {
      FilterStep(s, keep);
      FilterUnchanged(s[1..], keep);
      if !keep(s[0]) {
        assert |Filter(s, keep)| < |s|;
      }
      assert forall i :: 1 <= i < |s| ==> s[i] == s[1..][i - 1];
    }
  }

  /** Filtering by the same condition twice is filtering once. */
  lemma FilterIdempotent(s: seq<Entry>, keep: Entry -> bool)
    ensures Filter(Filter(s, keep), keep) == Filter(s, keep)
  {
    FilterUnchanged(Filter(s, keep), keep);
  }

  /** The filtered list holds no entry more often than the original. */
  lemma FilterSubmultiset(s: seq<Entry>, keep: Entry -> bool)
    ensures multiset(Filter(s, keep)) <= multiset(s)
  {
    forall e ensures multiset(Filter(s, keep))[e] <= multiset(s)[e] {
      FilterCount(s, keep, e);
    }
  }

  /** A selection from a list with unique ids has unique ids. */
  lemma {:induction false} FilterUniqueIds(s: seq<Entry>, keep: Entry -> bool)
    requires UniqueIds(s)
    ensures UniqueIds(Filter(s, keep))
  {
    if s != [] {
      var tail := s[1..];
      assert UniqueIds(tail) by {
        forall i, j | 0 <= i < j < |tail| ensures tail[i].id != tail[j].id {
          assert tail[i] == s[i + 1] && tail[j] == s[j + 1];
        }
      }
      FilterUniqueIds(tail, keep);
      FilterStep(s, keep);
      var rest := Filter(tail, keep);
      forall k | 0 <= k < |rest| ensures rest[k].id != s[0].id {
        var j :| 0 <= j < |tail| && tail[j] == rest[k];
        assert s[j + 1] == rest[k];
      }
    }
  }

  // ---------------------------------------------------------------------------
  // Delete and find

  /** The list with every entry carrying `id` removed. */
  function RemoveId(s: seq<Entry>, id: int): (r: seq<Entry>)
    ensures forall i :: 0 <= i < |r| ==> r[i] in s && r[i].id != id
  {
    Filter(s, OtherId(id))
  }

  /** Deleting removes every entry with the id and keeps every other entry, as often as it occurred. */
  lemma RemoveIdCount(s: seq<Entry>, id: int, e: Entry)
    ensures multiset(RemoveId(s, id))[e] == if e.id == id then 0 else multiset(s)[e]
  {
    FilterCount(s, OtherId(id), e);
  }

  /** Deleting keeps the remaining entries in their original order. */
  lemma RemoveIdAppend(a: seq<Entry>, b: seq<Entry>, id: int)
    ensures RemoveId(a + b, id) == RemoveId(a, id) + RemoveId(b, id)
  {
    FilterAppend(a, b, OtherId(id));
  }

  /** Deleting changes nothing exactly when no entry carries the id. */
  lemma RemoveIdAbsent(s: seq<Entry>, id: int)
    ensures RemoveId(s, id) == s <==> forall i :: 0 <= i < |s| ==> s[i].id != id
  {
    FilterUnchanged(s, OtherId(id));
  }

  /** Deleting the same id twice is deleting it once. */
  lemma RemoveIdTwice(s: seq<Entry>, id: int)
    ensures RemoveId(RemoveId(s, id), id) == RemoveId(s, id)
  {
    FilterIdempotent(s, OtherId(id));
  }

  /** In a list with unique ids, deleting an id that is present removes exactly one entry. */
  lemma {:induction false} RemoveIdPresent(s: seq<Entry>, id: int)
    requires UniqueIds(s)
    requires exists i :: 0 <= i < |s| && s[i].id == id
    ensures |RemoveId(s, id)| == |s| - 1
  {
    var tail := s[1..];
    FilterStep(s, OtherId(id));
    assert UniqueIds(tail) by {
      forall i, j | 0 <= i < j < |tail| ensures tail[i].id != tail[j].id {
        assert tail[i] == s[i + 1] && tail[j] == s[j + 1];
      }
    }
    if s[0].id == id {
      forall i | 0 <= i < |tail| ensures tail[i].id != id {
        assert tail[i] == s[i + 1];
      }
      RemoveIdAbsent(tail, id);
    } else {
      var k :| 0 <= k < |s| && s[k].id == id;
      assert tail[k - 1] == s[k];
      RemoveIdPresent(tail, id);
    }
  }

  /** Deleting keeps every card's next dose consistent with its status. */
  lemma RemoveIdKeepsNextDoseShown(s: seq<Entry>, id: int)
    requires NextDoseShown(s)
    ensures NextDoseShown(RemoveId(s, id))
  {
    var r := RemoveId(s, id);
    forall i | 0 <= i < |r| ensures r[i].nextDose == if r[i].status == Active then r[i].time else "" {
      var j :| 0 <= j < |s| && s[j] == r[i];
    }
  }

  /** Deleting keeps ids unique. */
  lemma RemoveIdKeepsUniqueIds(s: seq<Entry>, id: int)
    requires UniqueIds(s)
    ensures UniqueIds(RemoveId(s, id))
  {
    FilterUniqueIds(s, OtherId(id));
  }

  /** The first entry carrying the id, if any. */
  function Find(s: seq<Entry>, id: int): (r: Option<Entry>)
    ensures r.Some? <==> exists i :: 0 <= i < |s| && s[i].id == id
    ensures r.Some? ==> exists i :: 0 <= i < |s| && s[i] == r.value && r.value.id == id &&
                                    forall j :: 0 <= j < i ==> s[j].id != id
  {
    if s == [] then None
    else if s[0].id == id then Some(s[0])
    else
      assert forall i :: 1 <= i < |s| ==> s[i] == s[1..][i - 1];
      Find(s[1..], id)
  }
}
