/**
 * The schedule editor of src/pages/SchedulePage.tsx: a working copy of the
 * paired device's control (`deviceControl`), the snapshot taken at load and at
 * each successful save (`originalDeviceControl`), the `isModified` flag, the
 * index being edited, the picked time and the two dialog flags. Each handler
 * is one atomic transition of a `Page` object.
 *
 * Schedule entries are objects: toggling and editing change an entry in place
 * (the array is copied, its entries are not), so every payload that holds the
 * same entry object, the snapshot included, sees the change. Adding and
 * deleting build a new array and leave the entries themselves alone.
 */
module SchedulePage {
  import opened Wrappers
  import opened TimeOfDay
  import opened Alerts
  import Validators

  // ---------------------------------------------------------------------
  // Values: what the cache and the server hold, and what is sent

  /** A schedule entry as cached: the server may attach an identifier `_id`. */
  datatype StoredEntry = StoredEntry(id: Option<string>, time: string, enabled: bool)

  /** The config cached under the key "deviceControl", as parsed from its JSON text. */
  datatype StoredControl = StoredControl(deviceID: string, autoStatus: int, schedule: seq<StoredEntry>)

  /** The plain value of an entry and of a payload, as JSON serialisation sees them. */
  datatype EntryValue = EntryValue(time: string, enabled: bool)
  datatype ControlValue = ControlValue(autoStatus: int, schedule: seq<EntryValue>)

  /** `schedule.map(({ _id, ...rest }) => rest)` */
  function Strip(entries: seq<StoredEntry>): (r: seq<EntryValue>)
    ensures |r| == |entries|
  {
    seq(|entries|, i requires 0 <= i < |entries| => EntryValue(entries[i].time, entries[i].enabled))
  }

  /**
   * Stripping keeps the length and order and every field but the identifier;
   * two cached schedules that differ only in their identifiers strip alike.
   */
  lemma StripSpec(entries: seq<StoredEntry>, other: seq<StoredEntry>)
    requires |other| == |entries|
    requires forall i :: 0 <= i < |entries| ==>
               other[i].time == entries[i].time && other[i].enabled == entries[i].enabled
    ensures |Strip(entries)| == |entries|
    ensures forall i :: 0 <= i < |entries| ==>
              Strip(entries)[i].time == entries[i].time && Strip(entries)[i].enabled == entries[i].enabled
    ensures Strip(other) == Strip(entries)
  {
  }

  /** `autoStatus === 1 ? 0 : 1` */
  function NextAutoStatus(autoStatus: int): (r: int)
    ensures (r == 0 || r == 1) && r != autoStatus
  {
    if autoStatus == 1 then 0 else 1
  }

  /**
   * Toggling the mode always yields 0 or 1 and changes it; on 0 and 1 it is
   * its own inverse, while any other stored value becomes 1.
   */
  lemma AutoStatusToggleSpec(autoStatus: int)
    ensures NextAutoStatus(autoStatus) == 0 || NextAutoStatus(autoStatus) == 1
    ensures NextAutoStatus(autoStatus) != autoStatus
    ensures autoStatus == 0 || autoStatus == 1 ==> NextAutoStatus(NextAutoStatus(autoStatus)) == autoStatus
    ensures autoStatus != 0 && autoStatus != 1 ==> NextAutoStatus(autoStatus) == 1
  {
  }

  /** `schedule.filter((_, i) => i !== index)` */
  function DropIndex<T>(s: seq<T>, index: int): (r: seq<T>)
    ensures |r| == if 0 <= index < |s| then |s| - 1 else |s|
  {
    if s == [] then []
    else (if index == 0 then [] else [s[0]]) + DropIndex(s[1..], index - 1)
  }

  /**
   * The filter removes exactly the element at position index and keeps the
   * others in order; an index outside the schedule removes nothing.
   */
  lemma {:induction false} DropIndexSpec<T>(s: seq<T>, index: int)
    ensures 0 <= index < |s| ==> DropIndex(s, index) == s[..index] + s[index + 1..]
    ensures !(0 <= index < |s|) ==> DropIndex(s, index) == s
  {
    if s != [] {
      DropIndexSpec(s[1..], index - 1);
      if index == 0 {
        assert s[index + 1..] == s[1..];
      } else if 0 < index < |s| {
        assert s[..index] == [s[0]] + s[1..][..index - 1];
        assert s[index + 1..] == s[1..][index..];
      } else {
        assert s == [s[0]] + s[1..];
      }
    }
  }

  // ---------------------------------------------------------------------
  // Objects

  /** One `{ time, enabled }` entry object of a payload. */
  class Entry {
    var time: string
    var enabled: bool

    constructor (time: string, enabled: bool)
      ensures this.time == time && this.enabled == enabled
    {
      this.time := time;
      this.enabled := enabled;
    }
  }

  /**
   * The `{ autoStatus, schedule }` payload. Every handler that changes it
   * builds a new one by spreading the old, so it is a value that holds
   * references to entry objects.
   */
  datatype Control = Control(autoStatus: int, schedule: seq<Entry>)

  function EntriesValue(s: seq<Entry>): (r: seq<EntryValue>)
    reads s
    ensures |r| == |s|
  {
    seq(|s|, i requires 0 <= i < |s| reads s => EntryValue(s[i].time, s[i].enabled))
  }

  function ValueOf(c: Control): ControlValue
    reads c.schedule
  {
    ControlValue(c.autoStatus, EntriesValue(c.schedule))
  }

  predicate Distinct(s: seq<Entry>) {
    forall i, j :: 0 <= i < j < |s| ==> s[i] != s[j]
  }

  /** The entry objects `map` builds from the cached schedule: one new object per entry, holding its stripped value. */
  method NewEntries(stored: seq<StoredEntry>) returns (entries: seq<Entry>)
    ensures Distinct(entries)
    ensures forall k :: 0 <= k < |entries| ==> fresh(entries[k])
    ensures EntriesValue(entries) == Strip(stored)
  {
    entries := [];
    var i := 0;
    while i < |stored|
      invariant 0 <= i <= |stored|
      invariant |entries| == i
      invariant Distinct(entries)
      invariant forall k :: 0 <= k < i ==> fresh(entries[k])
      invariant forall k :: 0 <= k < i ==>
                  entries[k].time == stored[k].time && entries[k].enabled == stored[k].enabled
    {
      var e := new Entry(stored[i].time, stored[i].enabled);
      entries := entries + [e];
      i := i + 1;
    }
    assert EntriesValue(entries) == Strip(stored);
  }

  const ChooseValidTime := "Vui lòng chọn giờ hợp lệ!"
  const SaveSucceeded := Alert("Cập nhật thành công!", "Thông báo")
  const SaveFailed := Alert("Có lỗi khi lưu cấu hình!", "Lỗi")

  /** What `updateDeviceConfig(deviceID, deviceControl)` is given. */
  datatype SaveRequest = SaveRequest(deviceID: Option<string>, control: ControlValue)

  /**
   * How the save ends: the server rejects it, the server accepts it with
   * `response` but writing the cache fails, or both succeed.
   */
  datatype SaveOutcome = RemoteError | StorageError | Saved(response: StoredControl)

  class Page {
    /** The AsyncStorage entry "deviceControl" (None when it is missing or empty). */
    var cache: Option<StoredControl>
    var deviceID: Option<string>
    /** `deviceControl`, the working copy. */
    var working: Option<Control>
    /** `originalDeviceControl`, the snapshot. */
    var snapshot: Option<Control>
    var isModified: bool
    var showAddScheduleModal: bool
    var showTimePicker: bool
    var newTime: Option<Clock>
    var editingIndex: Option<int>

    /** Working copy and snapshot appear together, and no entry object occurs twice in the working copy. */
    ghost predicate Valid()
      reads this
    {
      && (working.Some? <==> snapshot.Some?)
      && (working.Some? ==> Distinct(working.value.schedule))
    }

    function Schedule(): seq<Entry>
      reads this
    {
      if working.Some? then working.value.schedule else []
    }

    function SnapshotSchedule(): seq<Entry>
      reads this
    {
      if snapshot.Some? then snapshot.value.schedule else []
    }

    function WorkingValue(): ControlValue
      requires working.Some?
      reads this, Schedule()
    {
      ValueOf(working.value)
    }

    function SnapshotValue(): ControlValue
      requires snapshot.Some?
      reads this, SnapshotSchedule()
    {
      ValueOf(snapshot.value)
    }

    // -------------------------------------------------------------------
    // What is rendered

    /** `if (!deviceControl)`: the "no device" view. */
    function ShowsNoDevice(): bool
      reads this
    {
      working.None?
    }

    /** The auto-mode switch is on. */
    function AutoSwitchOn(): bool
      reads this
    {
      working.Some? && working.value.autoStatus == 1
    }

    /** The schedule list with its toggle, edit and delete controls and the add button. */
    function OffersScheduleEditing(): bool
      reads this
    {
      working.Some? && working.value.autoStatus == 0
    }

    /** The notice that schedules cannot be changed in auto mode. */
    function ShowsAutoModeNotice(): bool
      reads this
    {
      working.Some? && working.value.autoStatus == 1
    }

    /** The save button is enabled. */
    function SaveEnabled(): bool
      reads this
    {
      working.Some? && isModified
    }

    // -------------------------------------------------------------------
    // Handlers

    /** The state a fresh page starts with; `stored` is what the cache holds. */
    constructor (stored: Option<StoredControl>)
      ensures Valid() && ShowsNoDevice() && !isModified
      ensures cache == stored && deviceID.None? && working.None? && snapshot.None?
      ensures !showAddScheduleModal && !showTimePicker && newTime.None? && editingIndex.None?
    {
      cache := stored;
      deviceID := None;
      working := None;
      snapshot := None;
      isModified := false;
      showAddScheduleModal := false;
      showTimePicker := false;
      newTime := None;
      editingIndex := None;
    }

    /**
     * The `fetchDeviceControl` effect: with a cached config, the working copy
     * and the snapshot become one payload of fresh entry objects holding the
     * cached schedule with the identifiers removed, and the device ID is kept
     * apart; with none, nothing changes and the "no device" view stays.
     */
    method Load()
      requires Valid()
      modifies this
      ensures Valid()
      ensures old(cache).None? ==> working == old(working) && snapshot == old(snapshot) && deviceID == old(deviceID)
      ensures old(cache).Some? ==> && deviceID == Some(old(cache).value.deviceID)
                                   && working.Some? && snapshot == working
                                   && (forall i :: 0 <= i < |Schedule()| ==> fresh(Schedule()[i]))
                                   && WorkingValue() == ControlValue(old(cache).value.autoStatus,
                                                                     Strip(old(cache).value.schedule))
      ensures cache == old(cache) && isModified == old(isModified) && newTime == old(newTime)
      ensures editingIndex == old(editingIndex)
      ensures showAddScheduleModal == old(showAddScheduleModal) && showTimePicker == old(showTimePicker)
    {
      if cache.Some? {
        var stored := cache.value;
        var entries := NewEntries(stored.schedule);
        var payload := Control(stored.autoStatus, entries);
        deviceID := Some(stored.deviceID);
        working := Some(payload);
        snapshot := Some(payload);
      }
    }

    /**
     * `handleAutoStatusToggle`: the mode goes from 1 to 0 and from anything
     * else to 1, the schedule (and the entries) stay as they are, and the
     * page is marked modified. Afterwards exactly one of the schedule
     * controls and the auto-mode notice is shown.
     */
    method HandleAutoStatusToggle()
      requires Valid() && working.Some?
      modifies this
      ensures Valid()
      ensures working == Some(Control(NextAutoStatus(old(working.value.autoStatus)), old(working.value.schedule)))
      ensures WorkingValue() == ControlValue(NextAutoStatus(old(WorkingValue().autoStatus)), old(WorkingValue().schedule))
      ensures isModified
      ensures OffersScheduleEditing() != ShowsAutoModeNotice()
      ensures cache == old(cache) && deviceID == old(deviceID) && snapshot == old(snapshot)
      ensures newTime == old(newTime) && editingIndex == old(editingIndex)
      ensures showAddScheduleModal == old(showAddScheduleModal) && showTimePicker == old(showTimePicker)
    {
      var c := working.value;
      working := Some(Control(NextAutoStatus(c.autoStatus), c.schedule));
      isModified := true;
    }

    /**
     * `handleScheduleToggle(index)`: for an index inside the schedule, flips
     * `enabled` of that entry object in place and marks the page modified;
     * length, order, every time and every other entry stay the same, and a
     * snapshot holding the same entry object sees the flip too. Outside the
     * schedule, reading `.enabled` of undefined throws and nothing changes.
     */
    method HandleScheduleToggle(index: int) returns (threw: bool)
      requires Valid() && working.Some?
      modifies this, if 0 <= index < |Schedule()| then {Schedule()[index]} else {}
      ensures Valid()
      ensures threw <==> !(0 <= index < |old(Schedule())|)
      ensures working == old(working)
      ensures threw ==> WorkingValue() == old(WorkingValue()) && isModified == old(isModified)
      ensures !threw ==>
                && isModified
                && WorkingValue().autoStatus == old(WorkingValue().autoStatus)
                && WorkingValue().schedule ==
                     old(WorkingValue().schedule)[index := EntryValue(old(WorkingValue().schedule[index].time),
                                                                      !old(WorkingValue().schedule[index].enabled))]
      ensures !threw ==>
                forall j :: 0 <= j < |SnapshotSchedule()| && SnapshotSchedule()[j] == Schedule()[index] ==>
                  SnapshotValue().schedule[j].enabled == !old(WorkingValue().schedule[index].enabled)
      ensures cache == old(cache) && deviceID == old(deviceID) && snapshot == old(snapshot)
      ensures newTime == old(newTime) && editingIndex == old(editingIndex)
      ensures showAddScheduleModal == old(showAddScheduleModal) && showTimePicker == old(showTimePicker)
    {
      var s := working.value.schedule;
      if !(0 <= index < |s|) {
        return true;
      }
      ghost var before := EntriesValue(s);
      s[index].enabled := !s[index].enabled;
      working := Some(Control(working.value.autoStatus, s));
      isModified := true;
      assert EntriesValue(s) == before[index := EntryValue(before[index].time, !before[index].enabled)];
      return false;
    }

    /**
     * `handleSave`: sends the whole working copy with the device ID. When the
     * server accepts and the cache is written, the cache holds the server's
     * response, the snapshot becomes the working copy itself (not the
     * response) and the page is no longer modified. When either step fails,
     * the working copy, the snapshot, the flag and the cache stay as they were.
     */
    method HandleSave(outcome: SaveOutcome) returns (request: SaveRequest, alert: Alert)
      requires Valid() && working.Some?
      modifies this
      ensures Valid()
      ensures request == SaveRequest(old(deviceID), old(WorkingValue()))
      ensures working == old(working) && WorkingValue() == old(WorkingValue())
      ensures outcome.Saved? ==> && cache == Some(outcome.response) && snapshot == working
                                 && !isModified && !SaveEnabled() && alert == SaveSucceeded
      ensures !outcome.Saved? ==> && cache == old(cache) && snapshot == old(snapshot)
                                  && isModified == old(isModified) && alert == SaveFailed
      ensures deviceID == old(deviceID) && newTime == old(newTime) && editingIndex == old(editingIndex)
      ensures showAddScheduleModal == old(showAddScheduleModal) && showTimePicker == old(showTimePicker)
    {
      request := SaveRequest(deviceID, ValueOf(working.value));
      match outcome {
        case RemoteError =>
          alert := SaveFailed;
        case StorageError =>
          alert := SaveFailed;
        case Saved(response) =>
          cache := Some(response);
          snapshot := working;
          isModified := false;
          alert := SaveSucceeded;
      }
    }

    /**
     * `handleAddSchedule`: with no time picked, only an alert; otherwise a new
     * entry object `{ time: HH:mm, enabled: true }` is appended after the
     * unchanged old entries, the page is marked modified, the dialog closes
     * and the picked time is cleared. The new time passes validateTime.
     */
    method HandleAddSchedule() returns (alert: Option<Alert>)
      requires Valid() && working.Some?
      modifies this
      ensures Valid()
      ensures old(newTime).None? ==>
                && alert == Some(Alert(ChooseValidTime, "Lỗi"))
                && working == old(working) && isModified == old(isModified)
                && newTime == old(newTime) && showAddScheduleModal == old(showAddScheduleModal)
      ensures old(newTime).Some? ==>
                && alert.None?
                && |Schedule()| == |old(Schedule())| + 1
                && Schedule()[..|old(Schedule())|] == old(Schedule())
                && fresh(Schedule()[|old(Schedule())|])
                && WorkingValue() == ControlValue(old(WorkingValue().autoStatus),
                                                  old(WorkingValue().schedule) + [EntryValue(FormatHHmm(old(newTime).value), true)])
                && Validators.ValidateTime(Schedule()[|old(Schedule())|].time)
                && isModified && !showAddScheduleModal && newTime.None?
      ensures cache == old(cache) && deviceID == old(deviceID) && snapshot == old(snapshot)
      ensures editingIndex == old(editingIndex) && showTimePicker == old(showTimePicker)
    {
      if newTime.None? {
        return Some(Alert(ChooseValidTime, "Lỗi"));
      }
      var s := working.value.schedule;
      ghost var before := EntriesValue(s);
      var time := FormatHHmm(newTime.value);
      FormattedTimeIsValid(newTime.value);
      var e := new Entry(time, true);
      working := Some(Control(working.value.autoStatus, s + [e]));
      isModified := true;
      showAddScheduleModal := false;
      newTime := None;
      assert EntriesValue(s + [e]) == before + [EntryValue(time, true)];
      assert (s + [e])[..|s|] == s;
      return None;
    }

    /**
     * `handleEditSchedule(index)`: remembers the index and, for an entry of
     * the schedule, opens the picker on that entry's time; `parsed` is the
     * time moment reads from the entry's text, which for a valid `HH:mm`
     * text is the clock it names. Outside the schedule, reading `.time` of
     * undefined throws after the index has been remembered.
     */
    method HandleEditSchedule(index: int, parsed: Clock) returns (threw: bool)
      requires Valid() && working.Some?
      requires 0 <= index < |Schedule()| && Validators.ValidateTime(Schedule()[index].time) ==>
                 parsed == ClockOf(Schedule()[index].time)
      modifies this
      ensures Valid()
      ensures editingIndex == Some(index)
      ensures threw <==> !(0 <= index < |Schedule()|)
      ensures !threw ==> newTime == Some(parsed) && showTimePicker
      ensures threw ==> newTime == old(newTime) && showTimePicker == old(showTimePicker)
      ensures working == old(working) && isModified == old(isModified)
      ensures cache == old(cache) && deviceID == old(deviceID) && snapshot == old(snapshot)
      ensures showAddScheduleModal == old(showAddScheduleModal)
    {
      editingIndex := Some(index);
      if !(0 <= index < |working.value.schedule|) {
        return true;
      }
      newTime := Some(parsed);
      showTimePicker := true;
      return false;
    }

    /**
     * Lines 119-123 of `handleTimePickerConfirm` for an index inside the
     * schedule: the entry object's `time` is overwritten in place and the
     * page is marked modified.
     */
    method WriteTime(k: int, time: string)
      requires Valid() && working.Some? && 0 <= k < |Schedule()|
      modifies this, Schedule()[k]
      ensures Valid() && working == old(working) && isModified
      ensures WorkingValue() == ControlValue(old(WorkingValue().autoStatus),
                                             old(WorkingValue().schedule)[k := EntryValue(time, old(WorkingValue().schedule[k].enabled))])
      ensures Schedule()[k].time == time
      ensures forall j :: 0 <= j < |SnapshotSchedule()| && SnapshotSchedule()[j] == Schedule()[k] ==>
                SnapshotValue().schedule[j].time == time
      ensures cache == old(cache) && deviceID == old(deviceID) && snapshot == old(snapshot)
      ensures newTime == old(newTime) && editingIndex == old(editingIndex)
      ensures showAddScheduleModal == old(showAddScheduleModal) && showTimePicker == old(showTimePicker)
    {
      var s := working.value.schedule;
      ghost var before := EntriesValue(s);
      s[k].time := time;
      working := Some(Control(working.value.autoStatus, s));
      isModified := true;
      assert EntriesValue(s) == before[k := EntryValue(time, before[k].enabled)];
      forall j | 0 <= j < |SnapshotSchedule()| && SnapshotSchedule()[j] == s[k]
        ensures SnapshotValue().schedule[j].time == time
      {
        assert SnapshotValue().schedule[j] == EntryValue(SnapshotSchedule()[j].time, SnapshotSchedule()[j].enabled);
      }
    }

    /**
     * `handleTimePickerConfirm(t)`: remembers t as the picked time; when an
     * index is being edited, the `time` of that entry object becomes t as
     * `HH:mm` in place (its `enabled`, the order and every other entry stay
     * the same, and a snapshot holding the same object sees the new time)
     * and the page is marked modified; then the picker closes. The edited
     * index is not forgotten. An index no longer inside the schedule throws
     * after t has been remembered.
     */
    method HandleTimePickerConfirm(t: Clock) returns (threw: bool)
      requires Valid() && working.Some?
      modifies this,
        if editingIndex.Some? && 0 <= editingIndex.value < |Schedule()| then {Schedule()[editingIndex.value]} else {}
      ensures Valid()
      ensures newTime == Some(t) && editingIndex == old(editingIndex)
      ensures threw <==> old(editingIndex).Some? && !(0 <= old(editingIndex).value < |old(Schedule())|)
      ensures working == old(working)
      ensures threw ==> showTimePicker == old(showTimePicker)
      ensures !threw ==> !showTimePicker
      ensures (threw || old(editingIndex).None?) ==> WorkingValue() == old(WorkingValue()) && isModified == old(isModified)
      ensures old(editingIndex).Some? && !threw ==>
                var k := old(editingIndex).value;
                && isModified
                && WorkingValue().autoStatus == old(WorkingValue().autoStatus)
                && WorkingValue().schedule ==
                     old(WorkingValue().schedule)[k := EntryValue(FormatHHmm(t), old(WorkingValue().schedule[k].enabled))]
                && Validators.ValidateTime(Schedule()[k].time)
                && forall j :: 0 <= j < |SnapshotSchedule()| && SnapshotSchedule()[j] == Schedule()[k] ==>
                     SnapshotValue().schedule[j].time == FormatHHmm(t)
      ensures cache == old(cache) && deviceID == old(deviceID) && snapshot == old(snapshot)
      ensures showAddScheduleModal == old(showAddScheduleModal)
    {
      newTime := Some(t);
      var s := working.value.schedule;
      if editingIndex.Some? {
        var k := editingIndex.value;
        if !(0 <= k < |s|) {
          return true;
        }
        WriteTime(k, FormatHHmm(t));
        FormattedTimeIsValid(t);
      }
      showTimePicker := false;
      return false;
    }

    /**
     * `handleDeleteSchedule(index)`: the schedule becomes the old one without
     * the entry at index, the others in their order and untouched; an index
     * outside the schedule removes nothing. Either way the page is marked
     * modified.
     */
    method HandleDeleteSchedule(index: int)
      requires Valid() && working.Some?
      modifies this
      ensures Valid()
      ensures working == Some(Control(old(working.value.autoStatus), DropIndex(old(Schedule()), index)))
      ensures 0 <= index < |old(Schedule())| ==>
                && |Schedule()| == |old(Schedule())| - 1
                && WorkingValue() == ControlValue(old(WorkingValue().autoStatus),
                                                  old(WorkingValue().schedule)[..index] + old(WorkingValue().schedule)[index + 1..])
      ensures !(0 <= index < |old(Schedule())|) ==> WorkingValue() == old(WorkingValue())
      ensures isModified
      ensures cache == old(cache) && deviceID == old(deviceID) && snapshot == old(snapshot)
      ensures newTime == old(newTime) && editingIndex == old(editingIndex)
      ensures showAddScheduleModal == old(showAddScheduleModal) && showTimePicker == old(showTimePicker)
    {
      var s := working.value.schedule;
      var kept := DropIndex(s, index);
      DropIndexSpec(s, index);
      ghost var before := EntriesValue(s);
      if 0 <= index < |s| {
        assert EntriesValue(kept) == before[..index] + before[index + 1..];
        assert Distinct(kept) by {
          forall i, j | 0 <= i < j < |kept| ensures kept[i] != kept[j] {
            var i' := if i < index then i else i + 1;
            var j' := if j < index then j else j + 1;
            assert kept[i] == s[i'] && kept[j] == s[j'];
          }
        }
      }
      working := Some(Control(working.value.autoStatus, kept));
      isModified := true;
    }

    /** The add button (shown only with the schedule controls) opens the add dialog. */
    method OpenAddScheduleModal()
      modifies this
      ensures showAddScheduleModal
      ensures working == old(working) && snapshot == old(snapshot) && isModified == old(isModified)
      ensures cache == old(cache) && deviceID == old(deviceID) && newTime == old(newTime)
      ensures editingIndex == old(editingIndex) && showTimePicker == old(showTimePicker)
    {
      showAddScheduleModal := true;
    }

    /** The dialog's close button and its back gesture close it and change nothing else. */
    method CloseAddScheduleModal()
      modifies this
      ensures !showAddScheduleModal
      ensures working == old(working) && snapshot == old(snapshot) && isModified == old(isModified)
      ensures cache == old(cache) && deviceID == old(deviceID) && newTime == old(newTime)
      ensures editingIndex == old(editingIndex) && showTimePicker == old(showTimePicker)
    {
      showAddScheduleModal := false;
    }

    /** The dialog's "choose time" button opens the picker. */
    method OpenTimePicker()
      modifies this
      ensures showTimePicker
      ensures working == old(working) && snapshot == old(snapshot) && isModified == old(isModified)
      ensures cache == old(cache) && deviceID == old(deviceID) && newTime == old(newTime)
      ensures editingIndex == old(editingIndex) && showAddScheduleModal == old(showAddScheduleModal)
    {
      showTimePicker := true;
    }

    /** `handleTimePickerCancel` closes the picker and changes nothing else. */
    method HandleTimePickerCancel()
      modifies this
      ensures !showTimePicker
      ensures working == old(working) && snapshot == old(snapshot) && isModified == old(isModified)
      ensures cache == old(cache) && deviceID == old(deviceID) && newTime == old(newTime)
      ensures editingIndex == old(editingIndex) && showAddScheduleModal == old(showAddScheduleModal)
    {
      showTimePicker := false;
    }
  }

  /**
   * What the page shows: the "no device" view excludes everything else, the
   * schedule controls and the auto-mode notice exclude each other (a mode
   * other than 0 and 1 shows neither), the auto switch is on exactly when
   * the notice is shown, and saving is possible exactly when the loaded page
   * is marked modified.
   */
  lemma RenderGuards(p: Page)
    ensures p.ShowsNoDevice() ==> !p.OffersScheduleEditing() && !p.ShowsAutoModeNotice() && !p.SaveEnabled()
    ensures !(p.OffersScheduleEditing() && p.ShowsAutoModeNotice())
    ensures p.AutoSwitchOn() <==> p.ShowsAutoModeNotice()
    ensures p.working.Some? ==> (p.SaveEnabled() <==> p.isModified)
    ensures p.working.Some? && p.working.value.autoStatus != 0 && p.working.value.autoStatus != 1 ==>
              !p.OffersScheduleEditing() && !p.ShowsAutoModeNotice()
  {
  }

  /** Toggling the same entry twice gives it back its `enabled` value; the page stays marked modified. */
  method ToggleTwice(p: Page, index: int)
    requires p.Valid() && p.working.Some? && 0 <= index < |p.Schedule()|
    modifies p, p.Schedule()[index]
    ensures p.Valid() && p.working == old(p.working)
    ensures p.WorkingValue() == old(p.WorkingValue()) && p.isModified
  {
    var threw := p.HandleScheduleToggle(index);
    threw := p.HandleScheduleToggle(index);
  }

  /**
   * Because the edited index is never cleared, picking a time for a new entry
   * after an edit also overwrites the entry that was edited: both it and the
   * appended entry end up with the picked time.
   */
  method AddAfterEdit(p: Page, index: int, picked: Clock)
    requires p.Valid() && p.working.Some? && 0 <= index < |p.Schedule()| && p.editingIndex == Some(index)
    modifies p, p.Schedule()[index]
    ensures p.Valid() && |p.Schedule()| == |old(p.Schedule())| + 1
    ensures p.WorkingValue().schedule[index] == EntryValue(FormatHHmm(picked), old(p.WorkingValue().schedule[index].enabled))
    ensures p.WorkingValue().schedule[|p.Schedule()| - 1] == EntryValue(FormatHHmm(picked), true)
  {
    p.OpenAddScheduleModal();
    p.OpenTimePicker();
    var threw := p.HandleTimePickerConfirm(picked);
    ghost var before := p.WorkingValue().schedule;
    var alert := p.HandleAddSchedule();
    assert p.WorkingValue().schedule == before + [EntryValue(FormatHHmm(picked), true)];
  }
}
