/** The tracker's state: the medicine list the page keeps in memory, the copy
    last written to browser storage, and the handlers that read or change them. */
module Tracker {
  import opened Optional
  import opened TimeText
  import opened Medicines
  import opened Views

  datatype NoticeKind = Success | Warning

  /** A message the page shows in its notification banner. */
  datatype Notice = Notice(title: string, message: string, kind: NoticeKind)

  /** The banner announcing that a dose is due. */
  function ReminderNotice(m: Entry): Notice {
    Notice("Medicine Reminder", "It's time to take your " + m.name + " (" + m.dosage + ")", Warning)
  }

  /** The list the page starts with when storage holds none. */
  function SampleData(): (s: seq<Entry>)
    ensures |s| == 3 && UniqueIds(s) && NextDoseShown(s)
    ensures NextId(s) == 4
  {
    [ Entry(1, "Paracetamol", "Tablet", "500mg", "Three times daily", "08:00",
            Date(2023, 7, 1), Some(Date(2023, 7, 10)), "Take after meals", Active, "08:00"),
      Entry(2, "Vitamin C", "Capsule", "1000mg", "Once daily", "09:00",
            Date(2023, 7, 1), None, "With breakfast", Active, "09:00"),
      Entry(3, "Amoxicillin", "Capsule", "250mg", "Twice daily", "20:00",
            Date(2023, 6, 20), Some(Date(2023, 6, 30)), "Course completed", Completed, "") ]
  }

  class MedicineList {
    /** The entries, in the order they were added. */
    var medicines: seq<Entry>
    /** What browser storage holds; None when nothing has been stored yet. */
    var saved: Option<seq<Entry>>

    /** Ids are unique and every card's next dose matches its status; every handler
        below keeps this. */
    ghost predicate Valid()
      reads this
    {
      UniqueIds(medicines) && NextDoseShown(medicines)
    }

    /** Page start: the stored list when there is one (an empty stored list included),
        the sample list otherwise. */
    constructor (stored: Option<seq<Entry>>)
      ensures medicines == (if stored.Some? then stored.value else SampleData())
      ensures saved == stored
      ensures (stored.Some? ==> UniqueIds(stored.value) && NextDoseShown(stored.value)) ==> Valid()
    {
      medicines := if stored.Some? then stored.value else SampleData();
      saved := stored;
    }

    /** Writes the whole list to storage, replacing what was there. */
    method Save()
      modifies this
      ensures medicines == old(medicines) && saved == Some(medicines)
    {
      saved := Some(medicines);
    }

    /** The submit handler: builds the entry from the form, appends it, saves, and
        announces the new entry by name. */
    method Add(f: Form) returns (e: Entry, notice: Notice)
      modifies this
      ensures e == NewEntry(old(medicines), f)
      ensures medicines == old(medicines) + [e]
      ensures saved == Some(medicines)
      ensures notice == Notice("Medicine Added", f.name + " has been added successfully!", Success)
      ensures old(Valid()) ==> Valid()
    {
      e := NewEntry(medicines, f);
      if Valid() {
        AddKeepsUniqueIds(medicines, f);
      }
      medicines := medicines + [e];
      Save();
      notice := Notice("Medicine Added", e.name + " has been added successfully!", Success);
    }

    /** The delete handler: when the user confirms, drops every entry with the id, saves
        and announces the removal; when the user declines, nothing changes, nothing is
        saved and nothing is announced. */
    method Delete(id: int, confirmed: bool) returns (notice: Option<Notice>)
      modifies this
      ensures medicines == if confirmed then RemoveId(old(medicines), id) else old(medicines)
      ensures saved == if confirmed then Some(medicines) else old(saved)
      ensures notice.Some? <==> confirmed
      ensures notice.Some? ==>
        notice.value == Notice("Medicine Deleted", "The medicine has been removed from your list.", Success)
      ensures old(Valid()) ==> Valid()
      ensures old(Valid()) && confirmed && (exists i :: 0 <= i < |old(medicines)| && old(medicines)[i].id == id) ==>
              |medicines| == |old(medicines)| - 1
    {
      notice := None;
      if confirmed {
        if Valid() {
          RemoveIdKeepsUniqueIds(medicines, id);
          RemoveIdKeepsNextDoseShown(medicines, id);
          if exists i :: 0 <= i < |medicines| && medicines[i].id == id {
            RemoveIdPresent(medicines, id);
          }
        }
        medicines := RemoveId(medicines, id);
        Save();
        notice := Some(Notice("Medicine Deleted", "The medicine has been removed from your list.", Success));
      }
    }

    /** The minute-by-minute poll: walks the list and announces, in order, every entry
        whose dose is due now; it changes nothing. */
    method CheckReminders(now: int) returns (due: seq<Entry>, notices: seq<Notice>)
      ensures due == DueEntries(medicines, now)
      ensures |notices| == |due|
      ensures forall k :: 0 <= k < |due| ==> notices[k] == ReminderNotice(due[k])
    {
      due, notices := [], [];
      var i := 0;
      while i < |medicines|
        invariant 0 <= i <= |medicines|
        invariant due == DueEntries(medicines[..i], now)
        invariant |notices| == |due|
        invariant forall k :: 0 <= k < |due| ==> notices[k] == ReminderNotice(due[k])
      {
        var m := medicines[i];
        assert medicines[..i + 1] == medicines[..i] + [m];
        DueEntriesSnoc(medicines[..i], m, now);
        if m.status == Active {
          var reminderMinutes := ToMinutes(m.time);
          if Abs(now - reminderMinutes) <= 1 {
            due := due + [m];
            notices := notices + [ReminderNotice(m)];
          }
        }
        i := i + 1;
      }
      assert medicines[..i] == medicines;
    }

    /** Marking a dose as taken: announces the entry with the id, if any; nothing is
        recorded and the list is not changed. */
    method MarkAsTaken(id: int) returns (notice: Option<Notice>)
      ensures notice.Some? <==> exists i :: 0 <= i < |medicines| && medicines[i].id == id
      ensures notice.Some? ==>
        notice.value == Notice("Medicine Taken",
                               "You've marked " + Find(medicines, id).value.name + " as taken.", Success)
    {
      var m := Find(medicines, id);
      if m.Some? {
        notice := Some(Notice("Medicine Taken", "You've marked " + m.value.name + " as taken.", Success));
      } else {
        notice := None;
      }
    }

    /** Snoozing a reminder: announces a ten-minute snooze of the entry with the id, if
        any; no later reminder time is recorded and the list is not changed. */
    method Snooze(id: int) returns (notice: Option<Notice>)
      ensures notice.Some? <==> exists i :: 0 <= i < |medicines| && medicines[i].id == id
      ensures notice.Some? ==>
        notice.value == Notice("Reminder Snoozed",
                               Find(medicines, id).value.name + " reminder snoozed for 10 minutes.", Success)
    {
      var m := Find(medicines, id);
      if m.Some? {
        notice := Some(Notice("Reminder Snoozed", m.value.name + " reminder snoozed for 10 minutes.", Success));
      } else {
        notice := None;
      }
    }
  }
}
