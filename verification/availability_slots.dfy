/**
 * The availability list of an offer: the offer's time slots grouped under their calendar
 * date, each labelled Booked, Selected or Available, and clicking a slot to select or
 * deselect it.
 *
 * Instants are whole minutes. The calendar date a slot is listed under is whatever the
 * date formatter makes of its start instant, passed in as `dateKey`. Those keys are written
 * out as "Monday, June 2nd, 2025" and so never look like an array index, which is why the
 * object the page groups into keeps its keys in insertion order.
 */
module AvailabilitySlots {
  import opened Wrappers
  import Seqs

  datatype TimeSlot = TimeSlot(id: string, startTime: int, endTime: int, isBooked: bool)

  /** The slot handed to the parent's `onSelectTimeSlot`. */
  datatype Selection = Selection(id: string, startTime: int, endTime: int)

  /** What a click does: nothing, or one call of `onSelectTimeSlot` with a slot or null. */
  datatype ClickEffect = NoEffect | Emit(selection: Option<Selection>)

  /**
   * `handleSlotClick`: booked slots and clicks by the offer's teacher are ignored, and so is
   * every click when the parent passed no callback; clicking the selected slot deselects
   * it, clicking any other slot selects it.
   */
  function HandleSlotClick(slot: TimeSlot, isTeacher: bool, hasCallback: bool, selectedId: Option<string>): (e: ClickEffect)
    ensures e != NoEffect <==> !slot.isBooked && !isTeacher && hasCallback
    ensures e == Emit(None) <==> e != NoEffect && selectedId == Some(slot.id)
    ensures e.Emit? && e.selection.Some? ==>
      e.selection.value == Selection(slot.id, slot.startTime, slot.endTime)
  {
    if slot.isBooked || isTeacher then NoEffect
    else if !hasCallback then NoEffect
    else if selectedId == Some(slot.id) then Emit(None)
    else Emit(Some(Selection(slot.id, slot.startTime, slot.endTime)))
  }

  datatype SlotLabel = Booked | Selected | Available

  /** The label: Booked wins over Selected, which wins over Available. */
  function Label(slot: TimeSlot, selectedId: Option<string>): (l: SlotLabel)
    ensures l == Booked <==> slot.isBooked
    ensures l == Selected <==> !slot.isBooked && selectedId == Some(slot.id)
  {
    if slot.isBooked then Booked
    else if selectedId == Some(slot.id) then Selected
    else Available
  }

  /** The selected id after the parent stores what a click emitted. */
  function SelectedAfter(e: ClickEffect, selectedId: Option<string>): (r: Option<string>)
    ensures e.NoEffect? ==> r == selectedId
    ensures e.Emit? ==> (r.None? <==> e.selection.None?)
    ensures e.Emit? && e.selection.Some? ==> r == Some(e.selection.value.id)
  {
    match e
    case NoEffect => selectedId
    case Emit(None) => None
    case Emit(Some(s)) => Some(s.id)
  }

  /**
   * A click that has an effect flips the clicked slot between Available and Selected, and
   * a second click flips it back.
   */
  lemma ClickToggles(slot: TimeSlot, hasCallback: bool, selectedId: Option<string>)
    requires !slot.isBooked && hasCallback
    ensures var after := SelectedAfter(HandleSlotClick(slot, false, true, selectedId), selectedId);
      && (Label(slot, selectedId) == Selected ==> Label(slot, after) == Available)
      && (Label(slot, selectedId) == Available ==> Label(slot, after) == Selected)
      && SelectedAfter(HandleSlotClick(slot, false, true, after), after)
         == (if selectedId == Some(slot.id) then selectedId else None)
  {
  }

  /** No click changes what a booked slot shows, and the teacher's clicks change nothing. */
  lemma IgnoredClicks(slot: TimeSlot, isTeacher: bool, hasCallback: bool, selectedId: Option<string>)
    requires slot.isBooked || isTeacher
    ensures SelectedAfter(HandleSlotClick(slot, isTeacher, hasCallback, selectedId), selectedId) == selectedId
  {
  }

  /** One date heading and the slots listed under it. */
  datatype Group = Group(date: string, slots: seq<TimeSlot>)

  /** The date a slot is listed under. */
  function SlotDate(dateKey: int -> string): TimeSlot -> string
  {
    (s: TimeSlot) => dateKey(s.startTime)
  }

  /** The groups for representatives `reps`: one per representative's date, in order. */
  function GroupsOf(slots: seq<TimeSlot>, reps: seq<TimeSlot>, key: TimeSlot -> string): (gs: seq<Group>)
    ensures |gs| == |reps|
  {
    seq(|reps|, j requires 0 <= j < |reps| =>
      Group(key(reps[j]), Seqs.Filter(slots, Seqs.KeyIs(key(reps[j]), key))))
  }

  /**
   * The grouping the page renders: one group per date, dates in order of first appearance
   * among the slots, each group holding the slots of its date in their input order.
   */
  function GroupsSpec(slots: seq<TimeSlot>, dateKey: int -> string): seq<Group>
  {
    GroupsOf(slots, Seqs.FirstByKey(slots, SlotDate(dateKey)), SlotDate(dateKey))
  }

  /** The dates recorded after a prefix of the slots: its dates, in order of first appearance. */
  ghost predicate DatesRecorded(prefix: seq<TimeSlot>, dates: seq<string>, key: TimeSlot -> string)
  {
    var reps := Seqs.FirstByKey(prefix, key);
    |dates| == |reps| && forall j :: 0 <= j < |dates| ==> dates[j] == key(reps[j])
  }

  /** The lists built after a prefix of the slots: one per date, holding that date's slots. */
  ghost predicate ListsBuilt(prefix: seq<TimeSlot>, acc: map<string, seq<TimeSlot>>, key: TimeSlot -> string)
  {
    KeysBuilt(prefix, acc, key) && ContentsBuilt(prefix, acc, key)
  }

  ghost predicate KeysBuilt(prefix: seq<TimeSlot>, acc: map<string, seq<TimeSlot>>, key: TimeSlot -> string)
  {
    forall k :: k in acc <==> Seqs.HasKey(prefix, k, key)
  }

  ghost predicate ContentsBuilt(prefix: seq<TimeSlot>, acc: map<string, seq<TimeSlot>>, key: TimeSlot -> string)
  {
    forall k :: k in acc ==> acc[k] == Seqs.Filter(prefix, Seqs.KeyIs(k, key))
  }

  /**
   * What the accumulator of `GroupSlots` holds after a prefix of the slots: the prefix's
   * dates in order of first appearance, and for each of them the prefix's slots of that date.
   */
  ghost predicate Accumulated(prefix: seq<TimeSlot>, acc: map<string, seq<TimeSlot>>, dates: seq<string>, key: TimeSlot -> string)
  {
    DatesRecorded(prefix, dates, key) && ListsBuilt(prefix, acc, key)
  }

  /**
   * `groupedSlots`: a forward pass over the slots that appends each slot to its date's list,
   * creating the list (and so the date's place in the key order) at the date's first slot.
   */
  method GroupSlots(slots: seq<TimeSlot>, dateKey: int -> string) returns (groups: seq<Group>)
    ensures groups == GroupsSpec(slots, dateKey)
  {
    var key := SlotDate(dateKey);
    var acc: map<string, seq<TimeSlot>> := map[];
    var dates: seq<string> := [];
    var i := 0;
    while i < |slots|
      invariant 0 <= i <= |slots|
      invariant Accumulated(slots[..i], acc, dates, key)
    {
      var slot := slots[i];
      var date := key(slot);
      assert slots[..i + 1] == slots[..i] + [slot];
      AccumulateStep(slots[..i], slot, acc, dates, key);
      if date in acc {
        acc := acc[date := acc[date] + [slot]];
      } else {
        acc := acc[date := [slot]];
        dates := dates + [date];
      }
      i := i + 1;
    }
    assert slots[..i] == slots;
    AccumulatedGroups(slots, acc, dates, key);
    groups := seq(|dates|, j requires 0 <= j < |dates| => Group(dates[j], acc[dates[j]]));
  }

  /** One iteration of `GroupSlots` keeps its accumulator accurate. */
  lemma AccumulateStep(prefix: seq<TimeSlot>, x: TimeSlot, acc: map<string, seq<TimeSlot>>, dates: seq<string>, key: TimeSlot -> string)
    requires Accumulated(prefix, acc, dates, key)
    ensures var k := key(x);
      Accumulated(prefix + [x],
        if k in acc then acc[k := acc[k] + [x]] else acc[k := [x]],
        if k in acc then dates else dates + [k],
        key)
  {
    DatesStep(prefix, x, dates, key);
    ListsStep(prefix, x, acc, key);
  }

  lemma DatesStep(prefix: seq<TimeSlot>, x: TimeSlot, dates: seq<string>, key: TimeSlot -> string)
    requires DatesRecorded(prefix, dates, key)
    ensures DatesRecorded(prefix + [x],
      if Seqs.HasKey(prefix, key(x), key) then dates else dates + [key(x)], key)
  {
    Seqs.FirstByKeySnoc(prefix, x, key);
  }

  lemma ListsStep(prefix: seq<TimeSlot>, x: TimeSlot, acc: map<string, seq<TimeSlot>>, key: TimeSlot -> string)
    requires ListsBuilt(prefix, acc, key)
    ensures var k := key(x);
      ListsBuilt(prefix + [x], if k in acc then acc[k := acc[k] + [x]] else acc[k := [x]], key)
  {
    KeysStep(prefix, x, acc, key);
    ContentsStep(prefix, x, acc, key);
  }

  lemma KeysStep(prefix: seq<TimeSlot>, x: TimeSlot, acc: map<string, seq<TimeSlot>>, key: TimeSlot -> string)
    requires KeysBuilt(prefix, acc, key)
    ensures var k := key(x);
      KeysBuilt(prefix + [x], if k in acc then acc[k := acc[k] + [x]] else acc[k := [x]], key)
  {
    Seqs.HasKeySnoc(prefix, x, key);
  }

  lemma ContentsStep(prefix: seq<TimeSlot>, x: TimeSlot, acc: map<string, seq<TimeSlot>>, key: TimeSlot -> string)
    requires KeysBuilt(prefix, acc, key) && ContentsBuilt(prefix, acc, key)
    ensures var k := key(x);
      ContentsBuilt(prefix + [x], if k in acc then acc[k := acc[k] + [x]] else acc[k := [x]], key)
  {
    var k := key(x);
    var acc' := if k in acc then acc[k := acc[k] + [x]] else acc[k := [x]];
    forall k' | k' in acc'
      ensures acc'[k'] == Seqs.Filter(prefix + [x], Seqs.KeyIs(k', key))
    {
      Seqs.FilterSnoc(prefix, x, Seqs.KeyIs(k', key));
      if k' == k && k !in acc {
        Seqs.FilterNoKey(prefix, k, key);
      }
    }
  }

  /** Once every slot is accumulated, reading the dates back in order gives the groups. */
  lemma AccumulatedGroups(slots: seq<TimeSlot>, acc: map<string, seq<TimeSlot>>, dates: seq<string>, key: TimeSlot -> string)
    requires Accumulated(slots, acc, dates, key)
    ensures forall j :: 0 <= j < |dates| ==> dates[j] in acc
    ensures seq(|dates|, j requires 0 <= j < |dates| && dates[j] in acc => Group(dates[j], acc[dates[j]]))
         == GroupsOf(slots, Seqs.FirstByKey(slots, key), key)
  {
    forall j | 0 <= j < |dates|
      ensures dates[j] in acc
    {
      AccumulatedGroup(slots, acc, dates, key, j);
    }
    var read := seq(|dates|, j requires 0 <= j < |dates| && dates[j] in acc => Group(dates[j], acc[dates[j]]));
    var gs := GroupsOf(slots, Seqs.FirstByKey(slots, key), key);
    assert |read| == |gs|;
    forall j | 0 <= j < |read|
      ensures read[j] == gs[j]
    {
      AccumulatedGroup(slots, acc, dates, key, j);
    }
  }

  /** The `j`-th date has a list in the accumulator, and reading it back gives the `j`-th group. */
  lemma AccumulatedGroup(slots: seq<TimeSlot>, acc: map<string, seq<TimeSlot>>, dates: seq<string>, key: TimeSlot -> string, j: int)
    requires Accumulated(slots, acc, dates, key)
    requires 0 <= j < |dates|
    ensures dates[j] in acc
    ensures Group(dates[j], acc[dates[j]]) == GroupsOf(slots, Seqs.FirstByKey(slots, key), key)[j]
  {
    var reps := Seqs.FirstByKey(slots, key);
    Seqs.FirstByKeySpec(slots, key);
    assert dates[j] == key(reps[j]);
    assert Seqs.HasKey(slots, key(reps[j]), key);
  }

  /** Adds up the group sizes. */
  function TotalSize(groups: seq<Group>): nat
  {
    if groups == [] then 0 else TotalSize(groups[..|groups| - 1]) + |groups[|groups| - 1].slots|
  }

  lemma {:induction false} TotalSizeOf(slots: seq<TimeSlot>, reps: seq<TimeSlot>, key: TimeSlot -> string)
    ensures TotalSize(GroupsOf(slots, reps, key)) == Seqs.SumGroupSizes(slots, reps, key)
    decreases |reps|
  {
    if reps != [] {
      var init := reps[..|reps| - 1];
      TotalSizeOf(slots, init, key);
      assert GroupsOf(slots, reps, key)[..|init|] == GroupsOf(slots, init, key);
    }
  }

  /** Grouping neither loses nor duplicates a slot: the groups' sizes add up to the input's. */
  lemma GroupingKeepsCount(slots: seq<TimeSlot>, dateKey: int -> string)
    ensures TotalSize(GroupsSpec(slots, dateKey)) == |slots|
  {
    var key := SlotDate(dateKey);
    TotalSizeOf(slots, Seqs.FirstByKey(slots, key), key);
    Seqs.GroupSizesAddUp(slots, key);
  }

  /**
   * The dates of the groups are dates of slots, each listed once, in order of their first
   * slot.
   */
  lemma GroupDatesInFirstSeenOrder(slots: seq<TimeSlot>, dateKey: int -> string)
    ensures forall j :: 0 <= j < |GroupsSpec(slots, dateKey)| ==>
      Seqs.HasKey(slots, GroupsSpec(slots, dateKey)[j].date, SlotDate(dateKey))
    ensures forall i, j :: 0 <= i < j < |GroupsSpec(slots, dateKey)| ==>
      GroupsSpec(slots, dateKey)[i].date != GroupsSpec(slots, dateKey)[j].date
    ensures forall i, j :: 0 <= i < j < |GroupsSpec(slots, dateKey)| ==>
      Seqs.FirstIndex(slots, GroupsSpec(slots, dateKey)[i].date, SlotDate(dateKey))
      < Seqs.FirstIndex(slots, GroupsSpec(slots, dateKey)[j].date, SlotDate(dateKey))
  {
    Seqs.FirstByKeySpec(slots, SlotDate(dateKey));
  }

  /**
   * Each group lists exactly the slots of its date, in input order and as often as they
   * occur; so no group is empty.
   */
  lemma GroupContents(slots: seq<TimeSlot>, dateKey: int -> string)
    ensures var groups := GroupsSpec(slots, dateKey);
      && (forall j :: 0 <= j < |groups| ==> Seqs.IsSubsequence(groups[j].slots, slots))
      && (forall j, s :: 0 <= j < |groups| && s in groups[j].slots ==>
            s in slots && dateKey(s.startTime) == groups[j].date)
      && (forall j, s :: 0 <= j < |groups| && s in slots && dateKey(s.startTime) == groups[j].date ==>
            multiset(groups[j].slots)[s] == multiset(slots)[s])
      && (forall j :: 0 <= j < |groups| ==> groups[j].slots != [])
  {
    var key := SlotDate(dateKey);
    var reps := Seqs.FirstByKey(slots, key);
    var groups := GroupsSpec(slots, dateKey);
    Seqs.FirstByKeySpec(slots, key);
    forall j | 0 <= j < |groups|
      ensures groups[j].slots != []
    {
      var n := Seqs.FirstIndex(slots, key(reps[j]), key);
      var s := slots[n];
      assert s in slots && Seqs.KeyIs(key(reps[j]), key)(s);
      assert s in groups[j].slots;
    }
  }

  /** A slot is in a group exactly when it is a slot of that group's date. */
  lemma GroupsOfMember(slots: seq<TimeSlot>, reps: seq<TimeSlot>, key: TimeSlot -> string, j: int, s: TimeSlot)
    requires 0 <= j < |reps|
    ensures GroupsOf(slots, reps, key)[j].date == key(reps[j])
    ensures s in GroupsOf(slots, reps, key)[j].slots <==> s in slots && key(s) == key(reps[j])
  {
    var p := Seqs.KeyIs(key(reps[j]), key);
    var g := Seqs.Filter(slots, p);
    assert GroupsOf(slots, reps, key)[j].slots == g;
    if s in slots && key(s) == key(reps[j]) {
      assert p(s);
      assert multiset(g)[s] == multiset(slots)[s];
    }
  }

  /** Every slot is listed in exactly one group: the one of its own date. */
  lemma EverySlotInOneGroup(slots: seq<TimeSlot>, dateKey: int -> string, s: TimeSlot)
    requires s in slots
    ensures var groups := GroupsSpec(slots, dateKey);
      exists j :: 0 <= j < |groups| && groups[j].date == dateKey(s.startTime)
        && forall i :: 0 <= i < |groups| ==> (s in groups[i].slots <==> i == j)
  {
    var key := SlotDate(dateKey);
    var reps := Seqs.FirstByKey(slots, key);
    var groups := GroupsSpec(slots, dateKey);
    var n :| 0 <= n < |slots| && slots[n] == s;
    Seqs.FirstByKeyCovers(slots, key, n);
    var j := Seqs.FirstIndex(reps, key(s), key);
    InOnlyGroup(slots, dateKey, s, j);
  }

  lemma InOnlyGroup(slots: seq<TimeSlot>, dateKey: int -> string, s: TimeSlot, j: int)
    requires 0 <= j < |GroupsSpec(slots, dateKey)|
    requires GroupsSpec(slots, dateKey)[j].date == dateKey(s.startTime)
    requires s in slots
    ensures forall i :: 0 <= i < |GroupsSpec(slots, dateKey)| ==>
      (s in GroupsSpec(slots, dateKey)[i].slots <==> i == j)
  {
    var key := SlotDate(dateKey);
    var reps := Seqs.FirstByKey(slots, key);
    var groups := GroupsSpec(slots, dateKey);
    GroupDatesInFirstSeenOrder(slots, dateKey);
    forall i | 0 <= i < |groups|
      ensures s in groups[i].slots <==> i == j
    {
      GroupsOfMember(slots, reps, key, i, s);
    }
  }
}
