/** The organizer panel's two forms and what they write to the store:
    creating the race, and adding a checkpoint to it. Each form trims its
    fields, runs its checks in a fixed order and reports the first one that
    fails without writing anything; otherwise it saves. */
module Organizer {
  import opened Results
  import opened Text
  import opened Calendar
  import opened Coords
  import opened EventStore

  /** The race form's fields, as typed. */
  datatype RaceForm = RaceForm(name: string, date: string)

  datatype RaceError = BlankName | BlankDate | BadDateFormat

  function RaceErrorMessage(e: RaceError): string {
    match e
    case BlankName => "Введите название соревнования"
    case BlankDate => "Введите дату соревнования"
    case BadDateFormat => "Неверный формат даты. Используйте ДД-ММ-ГГГГ"
  }

  /** `_on_create_race`: the first of blank name, blank date and a date that
      is not a real `DD-MM-YYYY` calendar date is reported; otherwise the race
      record is replaced by the trimmed name and date with the creation time
      and every other record is kept. */
  function CreateRace(s: Store, f: RaceForm, createdAt: string): (r: Result<Store, RaceError>)
    ensures r.Failure? <==> AllSpace(f.name) || AllSpace(f.date) || ParseDate(Strip(f.date)).None?
    ensures r.Failure? ==> (r.error == BlankName <==> AllSpace(f.name))
    ensures r.Failure? ==> (r.error == BlankDate <==> !AllSpace(f.name) && AllSpace(f.date))
    ensures r.Success? ==> RaceKey in r.value && r.value[RaceKey] == RaceRecord(Race(Strip(f.name), Strip(f.date), createdAt))
    ensures r.Success? ==> forall k | k != RaceKey :: (k in r.value <==> k in s) && (k in s ==> r.value[k] == s[k])
  {
    var name := Strip(f.name);
    var date := Strip(f.date);
    StripFacts(f.name);
    StripFacts(f.date);
    if name == [] then Failure(BlankName)
    else if date == [] then Failure(BlankDate)
    else if ParseDate(date).None? then Failure(BadDateFormat)
    else Success(Put(s, RaceKey, RaceRecord(Race(name, date, createdAt))))
  }

  /** The add-checkpoint form's fields, as typed. */
  datatype CheckpointForm = CheckpointForm(number: string, code: string, latitude: string, longitude: string, hint: string)

  datatype CheckpointError = BlankNumber | BlankCode | BlankCoordinates | BadCoordinates

  function CheckpointErrorMessage(e: CheckpointError): string {
    match e
    case BlankNumber => "Введите номер КП"
    case BlankCode => "Введите код КП"
    case BlankCoordinates => "Введите координаты"
    case BadCoordinates => "Неверный формат координат. Используйте формат: xx,xxxxx° yy,yyyyy°"
  }

  /** The fixed part of every checkpoint's name, shown before the number field. */
  const CheckpointPrefix: string := "КП "

  /** The checks of `save_cp`, in order, and the record they produce, whose
      position is always in range. What the checks decide is stated by
      `CheckCheckpointSpec`. */
  function CheckCheckpoint(f: CheckpointForm): (r: Result<Checkpoint, CheckpointError>)
    ensures r.Success? ==> -LatitudeLimit <= r.value.latitude <= LatitudeLimit && -LongitudeLimit <= r.value.longitude <= LongitudeLimit
  {
    var number := Strip(f.number);
    var code := Strip(f.code);
    var latText := Strip(f.latitude);
    var lonText := Strip(f.longitude);
    if number == [] then Failure(BlankNumber)
    else if code == [] then Failure(BlankCode)
    else if latText == [] || lonText == [] then Failure(BlankCoordinates)
    else
      match ValidateCoords(latText, lonText)
      case Rejected => Failure(BadCoordinates)
      case Accepted(lat, lon) => Success(Checkpoint(CheckpointPrefix + number, code, lat, lon, Strip(f.hint)))
  }

  /** What the checks of `save_cp` decide: the first of a blank number, a
      blank code, a blank coordinate and a position the coordinate check
      rejects is reported; otherwise the record's name is the prefix and the
      trimmed number, code and hint are trimmed, and the position is the one
      the coordinate check accepted. */
  lemma {:induction false} CheckCheckpointSpec(f: CheckpointForm)
    ensures var r := CheckCheckpoint(f);
      && (r.Failure? <==> || AllSpace(f.number) || AllSpace(f.code)
                          || AllSpace(f.latitude) || AllSpace(f.longitude)
                          || ValidateCoords(Strip(f.latitude), Strip(f.longitude)).Rejected?)
      && (r.Failure? ==> (r.error == BlankNumber <==> AllSpace(f.number)))
      && (r.Failure? ==> (r.error == BlankCode <==> !AllSpace(f.number) && AllSpace(f.code)))
      && (r.Failure? ==> (r.error == BlankCoordinates <==>
                            && !AllSpace(f.number) && !AllSpace(f.code)
                            && (AllSpace(f.latitude) || AllSpace(f.longitude))))
    ensures var r := CheckCheckpoint(f);
      r.Success? ==> && r.value.name == CheckpointPrefix + Strip(f.number)
                     && r.value.code == Strip(f.code)
                     && r.value.hint == Strip(f.hint)
                     && ValidateCoords(Strip(f.latitude), Strip(f.longitude))
                          == Accepted(r.value.latitude, r.value.longitude)
  {
    StripFacts(f.number);
    StripFacts(f.code);
    StripFacts(f.latitude);
    StripFacts(f.longitude);
  }

  /** `save_cp`: after the checks, the checkpoint list is created empty when
      missing, read, extended by the new record and written back whole. The
      list grows by exactly that record at its end; no other record changes. */
  function AddCheckpoint(s: Store, f: CheckpointForm): (r: Result<Store, CheckpointError>)
    ensures r.Failure? <==> CheckCheckpoint(f).Failure?
    ensures r.Failure? ==> r.error == CheckCheckpoint(f).error
    ensures r.Success? ==> && CheckpointsKey in r.value
                           && r.value[CheckpointsKey].CheckpointList?
                           && SavedCheckpoints(r.value) == SavedCheckpoints(s) + [CheckCheckpoint(f).value]
    ensures r.Success? ==> forall k | k != CheckpointsKey :: (k in r.value <==> k in s) && (k in s ==> r.value[k] == s[k])
  {
    match CheckCheckpoint(f)
    case Failure(e) => Failure(e)
    case Success(c) =>
      var initialised := if CheckpointsKey in s then s else Put(s, CheckpointsKey, CheckpointList([]));
      var items := ItemsOf(Get(initialised, CheckpointsKey).value);
      Success(Put(initialised, CheckpointsKey, CheckpointList(items + [c])))
  }

  /** A saved race always carries a non-blank trimmed name and a date that
      spells a real calendar date. */
  lemma {:induction false} SavedRaceIsValid(s: Store, f: RaceForm, createdAt: string)
    requires CreateRace(s, f, createdAt).Success?
    ensures var race := CreateRace(s, f, createdAt).value[RaceKey].race;
      && race.name != [] && Trimmed(race.name)
      && ParseDate(race.date).Some?
      && IsValidDate(ParseDate(race.date).value)
      && exists dw: nat, mw: nat :: Spells(race.date, ParseDate(race.date).value, dw, mw)
  {
    var race := CreateRace(s, f, createdAt).value[RaceKey].race;
    StripFacts(f.name);
    ParseDateSound(race.date);
  }

  /** Submitting the same race form again, at a later time, succeeds again
      and overwrites the whole race record: the store is as if only the
      second submission, with its own creation time, had happened. */
  lemma {:induction false} CreateRaceResubmitted(s: Store, f: RaceForm, firstAt: string, secondAt: string)
    requires CreateRace(s, f, firstAt).Success?
    ensures CreateRace(CreateRace(s, f, firstAt).value, f, secondAt) == CreateRace(s, f, secondAt)
    ensures CreateRace(s, f, secondAt).value[RaceKey].race.createdAt == secondAt
  {
    var first := RaceRecord(Race(Strip(f.name), Strip(f.date), firstAt));
    var second := RaceRecord(Race(Strip(f.name), Strip(f.date), secondAt));
    var s1 := CreateRace(s, f, firstAt).value;
    assert s1 == Put(s, RaceKey, first);
    assert CreateRace(s1, f, secondAt) == Success(Put(s1, RaceKey, second));
    assert CreateRace(s, f, secondAt) == Success(Put(s, RaceKey, second));
    PutOverwrites(s, RaceKey, first, second);
  }

  /** An empty name is refused before anything is written. */
  lemma {:induction false} EmptyNameRejected(s: Store, f: RaceForm, createdAt: string)
    requires f.name == ""
    ensures CreateRace(s, f, createdAt) == Failure(BlankName)
  {
  }

  /** A date that names no calendar day is refused, with the date format
      message, before anything is written. */
  lemma {:induction false} ImpossibleDateRejected(s: Store, f: RaceForm, createdAt: string)
    requires !AllSpace(f.name) && f.date == "31-02-2025"
    ensures CreateRace(s, f, createdAt) == Failure(BadDateFormat)
  {
    StripTrimmed(f.date);
    StripFacts(f.date);
    NoThirtyFirstOfFebruary(f.date);
  }

  /** The store after pressing save: a failed save leaves it as it was (its
      error is only shown). */
  function SaveOne(s: Store, f: CheckpointForm): Store {
    match AddCheckpoint(s, f)
    case Success(t) => t
    case Failure(_) => s
  }

  /** Saving one checkpoint form after another. */
  function SaveAll(s: Store, forms: seq<CheckpointForm>): Store
    decreases |forms|
  {
    if forms == [] then s else SaveAll(SaveOne(s, forms[0]), forms[1..])
  }

  /** The record a form produces, if it passes the checks. */
  function RecordOf(f: CheckpointForm): seq<Checkpoint> {
    match CheckCheckpoint(f)
    case Success(c) => [c]
    case Failure(_) => []
  }

  /** The records of the forms that pass the checks, in order. */
  function AcceptedRecords(forms: seq<CheckpointForm>): (cs: seq<Checkpoint>)
    ensures |cs| <= |forms|
  {
    if forms == [] then [] else RecordOf(forms[0]) + AcceptedRecords(forms[1..])
  }

  lemma {:induction false} SaveOneAppends(s: Store, f: CheckpointForm)
    ensures SavedCheckpoints(SaveOne(s, f)) == SavedCheckpoints(s) + RecordOf(f)
    ensures forall k | k != CheckpointsKey :: (k in SaveOne(s, f) <==> k in s)
    ensures forall k | k != CheckpointsKey && k in s :: SaveOne(s, f)[k] == s[k]
  {
    if CheckCheckpoint(f).Failure? {
      assert SavedCheckpoints(s) + [] == SavedCheckpoints(s);
    }
  }

  /** A run of saves appends exactly the accepted records, in the order they
      were saved. */
  lemma {:induction false} SaveAllAppends(s: Store, forms: seq<CheckpointForm>)
    ensures SavedCheckpoints(SaveAll(s, forms)) == SavedCheckpoints(s) + AcceptedRecords(forms)
    decreases |forms|
  {
    if forms == [] {
      assert SavedCheckpoints(s) + [] == SavedCheckpoints(s);
    } else {
      SaveOneAppends(s, forms[0]);
      SaveAllAppends(SaveOne(s, forms[0]), forms[1..]);
      RecordsInOrder(SavedCheckpoints(s), RecordOf(forms[0]), AcceptedRecords(forms[1..]));
    }
  }

  /** The list after one save and then a run of saves is the old list, then
      the first save's record, then the run's records. */
  lemma {:induction false} RecordsInOrder(saved: seq<Checkpoint>, first: seq<Checkpoint>, rest: seq<Checkpoint>)
    ensures (saved + first) + rest == saved + (first + rest)
  {
  }

  /** A run of saves leaves every record but the checkpoint list, the race
      included, as it was. */
  lemma {:induction false} SaveAllKeepsOthers(s: Store, forms: seq<CheckpointForm>, k: string)
    requires k != CheckpointsKey
    ensures k in SaveAll(s, forms) <==> k in s
    ensures k in s ==> SaveAll(s, forms)[k] == s[k]
    decreases |forms|
  {
    if forms != [] {
      SaveOneAppends(s, forms[0]);
      SaveAllKeepsOthers(SaveOne(s, forms[0]), forms[1..], k);
    }
  }

  /** The values of the successful checks, in order. */
  function Successes(rs: seq<Result<Checkpoint, CheckpointError>>): (cs: seq<Checkpoint>)
    ensures |cs| <= |rs|
  {
    if rs == [] then [] else (if rs[0].Success? then [rs[0].value] else []) + Successes(rs[1..])
  }

  /** When every check succeeds, one value per check, in order. */
  lemma {:induction false} AllSuccesses(rs: seq<Result<Checkpoint, CheckpointError>>)
    requires forall i | 0 <= i < |rs| :: rs[i].Success?
    ensures |Successes(rs)| == |rs|
    ensures forall i | 0 <= i < |rs| :: Successes(rs)[i] == rs[i].value
    decreases |rs|
  {
    if rs != [] {
      assert forall i | 0 <= i < |rs| - 1 :: rs[1..][i] == rs[i + 1];
      AllSuccesses(rs[1..]);
    }
  }

  /** The check of each form, in order. */
  function Checks(forms: seq<CheckpointForm>): (rs: seq<Result<Checkpoint, CheckpointError>>)
    ensures |rs| == |forms|
  {
    if forms == [] then [] else [CheckCheckpoint(forms[0])] + Checks(forms[1..])
  }

  lemma {:induction false} ChecksAt(forms: seq<CheckpointForm>, i: nat)
    requires i < |forms|
    ensures Checks(forms)[i] == CheckCheckpoint(forms[i])
    decreases i
  {
    if i > 0 {
      ChecksAt(forms[1..], i - 1);
    }
  }

  lemma {:induction false} ChecksAll(forms: seq<CheckpointForm>)
    ensures forall i | 0 <= i < |forms| :: Checks(forms)[i] == CheckCheckpoint(forms[i])
  {
    forall i | 0 <= i < |forms| ensures Checks(forms)[i] == CheckCheckpoint(forms[i]) {
      ChecksAt(forms, i);
    }
  }

  lemma {:induction false} AcceptedAsSuccesses(forms: seq<CheckpointForm>)
    ensures AcceptedRecords(forms) == Successes(Checks(forms))
    decreases |forms|
  {
    if forms != [] {
      AcceptedAsSuccesses(forms[1..]);
      var rs := Checks(forms);
      assert rs[1..] == Checks(forms[1..]);
    }
  }

  /** When every form passes, `n` saves add `n` records, the `i`-th save's
      record at position `|old| + i`. */
  lemma {:induction false} AllAcceptedAppendsAll(forms: seq<CheckpointForm>)
    requires forall i | 0 <= i < |forms| :: CheckCheckpoint(forms[i]).Success?
    ensures |AcceptedRecords(forms)| == |forms|
    ensures forall i | 0 <= i < |forms| :: AcceptedRecords(forms)[i] == CheckCheckpoint(forms[i]).value
  {
    var rs := Checks(forms);
    AcceptedAsSuccesses(forms);
    ChecksAll(forms);
    AllSuccesses(rs);
  }

  /** Before the first checkpoint there is no list; one successful save
      creates it holding exactly the submitted record. */
  lemma {:induction false} FirstCheckpoint(s: Store, f: CheckpointForm)
    requires CheckpointsKey !in s && CheckCheckpoint(f).Success?
    ensures AddCheckpoint(s, f).Success?
    ensures var t := AddCheckpoint(s, f).value;
      CheckpointsKey in t && t[CheckpointsKey] == CheckpointList([CheckCheckpoint(f).value])
  {
    assert SavedCheckpoints(s) == [];
  }

  /** A saved race: non-blank trimmed name, a date Python's `strptime`
      accepts. */
  predicate ValidRace(r: Race) {
    r.name != [] && Trimmed(r.name) && ParseDate(r.date).Some?
  }

  /** A saved checkpoint: the prefixed name of a non-blank trimmed number, a
      non-blank trimmed code, a trimmed hint and a position in range. */
  predicate ValidCheckpoint(c: Checkpoint) {
    && |c.name| > |CheckpointPrefix|
    && c.name[..|CheckpointPrefix|] == CheckpointPrefix
    && Trimmed(c.name[|CheckpointPrefix|..])
    && c.code != [] && Trimmed(c.code) && Trimmed(c.hint)
    && -LatitudeLimit <= c.latitude <= LatitudeLimit
    && -LongitudeLimit <= c.longitude <= LongitudeLimit
  }

  /** What the organizer forms ever write: a valid race under `race`, a list
      of valid checkpoints under `checkpoints`. */
  predicate WellFormed(s: Store) {
    && (RaceKey in s ==> s[RaceKey].RaceRecord? && ValidRace(s[RaceKey].race))
    && (CheckpointsKey in s ==>
          && s[CheckpointsKey].CheckpointList?
          && forall i | 0 <= i < |s[CheckpointsKey].items| :: ValidCheckpoint(s[CheckpointsKey].items[i]))
  }

  lemma {:induction false} CheckedCheckpointIsValid(f: CheckpointForm)
    requires CheckCheckpoint(f).Success?
    ensures ValidCheckpoint(CheckCheckpoint(f).value)
  {
    var c := CheckCheckpoint(f).value;
    CheckCheckpointSpec(f);
    StripFacts(f.number);
    StripFacts(f.code);
    assert c.name[..|CheckpointPrefix|] == CheckpointPrefix;
    assert c.name[|CheckpointPrefix|..] == Strip(f.number);
  }

  /** Creating the race keeps the store well formed. */
  lemma {:induction false} CreateRaceKeepsWellFormed(s: Store, f: RaceForm, createdAt: string)
    requires WellFormed(s)
    requires CreateRace(s, f, createdAt).Success?
    ensures WellFormed(CreateRace(s, f, createdAt).value)
  {
    StripFacts(f.name);
  }

  /** Adding a checkpoint keeps the store well formed. */
  lemma {:induction false} AddCheckpointKeepsWellFormed(s: Store, f: CheckpointForm)
    requires WellFormed(s)
    requires AddCheckpoint(s, f).Success?
    ensures WellFormed(AddCheckpoint(s, f).value)
  {
    CheckedCheckpointIsValid(f);
    var t := AddCheckpoint(s, f).value;
    var items := t[CheckpointsKey].items;
    assert items == SavedCheckpoints(s) + [CheckCheckpoint(f).value];
    forall i | 0 <= i < |items| ensures ValidCheckpoint(items[i]) {
      if i < |SavedCheckpoints(s)| {
        assert items[i] == SavedCheckpoints(s)[i];
      }
    }
  }

  /** What the panel shows: the race form while there is no race, otherwise
      the race with the add-checkpoint button. */
  datatype Screen = CreateRaceScreen | RaceScreen

  function ScreenFor(s: Store): (v: Screen)
    ensures v == RaceScreen <==> RaceKey in s
  {
    if RaceKey in s then RaceScreen else CreateRaceScreen
  }

  /** A form submitted on the panel. */
  datatype Action = SubmitRace(raceForm: RaceForm, createdAt: string) | SubmitCheckpoint(checkpointForm: CheckpointForm)

  /** The store after an action, which is only reachable on the screen that
      shows its form; the panel is rebuilt after every successful save. Once
      the race screen is shown the race record never changes, and before it
      nothing but the race record is written. */
  function Perform(s: Store, a: Action): (r: Store)
    ensures ScreenFor(s) == RaceScreen ==> RaceKey in r && r[RaceKey] == s[RaceKey]
    ensures ScreenFor(s) == CreateRaceScreen ==>
      forall k | k != RaceKey :: (k in r <==> k in s) && (k in s ==> r[k] == s[k])
  {
    match a
    case SubmitRace(f, t) =>
      if ScreenFor(s) != CreateRaceScreen then s
      else (match CreateRace(s, f, t) case Success(u) => u case Failure(_) => s)
    case SubmitCheckpoint(f) =>
      if ScreenFor(s) != RaceScreen then s
      else SaveOne(s, f)
  }

  function Session(s: Store, actions: seq<Action>): Store
    decreases |actions|
  {
    if actions == [] then s else Session(Perform(s, actions[0]), actions[1..])
  }

  /** Through the panel, checkpoints are only ever saved for an existing
      race, and once a race exists it is never replaced. */
  lemma {:induction false} SessionRaceFirst(s: Store, actions: seq<Action>)
    requires CheckpointsKey in s ==> RaceKey in s
    ensures var t := Session(s, actions);
      && (CheckpointsKey in t ==> RaceKey in t)
      && (RaceKey in s ==> RaceKey in t && t[RaceKey] == s[RaceKey])
    decreases |actions|
  {
    if actions != [] {
      SessionRaceFirst(Perform(s, actions[0]), actions[1..]);
    }
  }

  /** A successful race form switches the panel to the race screen. */
  lemma {:induction false} CreateRaceShowsRace(s: Store, f: RaceForm, createdAt: string)
    requires ScreenFor(s) == CreateRaceScreen
    requires CreateRace(s, f, createdAt).Success?
    ensures ScreenFor(Perform(s, SubmitRace(f, createdAt))) == RaceScreen
  {
  }

  /** A refused race form keeps the panel on the race form with the store
      as it was. */
  lemma {:induction false} RefusedRaceKeepsForm(s: Store, f: RaceForm, createdAt: string)
    requires ScreenFor(s) == CreateRaceScreen
    requires CreateRace(s, f, createdAt).Failure?
    ensures Perform(s, SubmitRace(f, createdAt)) == s
  {
  }

  /** Once the race screen is shown, no session switches the panel back and
      the race record stays as it was. */
  lemma {:induction false} RaceScreenStays(s: Store, actions: seq<Action>)
    requires ScreenFor(s) == RaceScreen
    ensures ScreenFor(Session(s, actions)) == RaceScreen
    ensures Session(s, actions)[RaceKey] == s[RaceKey]
    decreases |actions|
  {
    if actions != [] {
      RaceScreenStays(Perform(s, actions[0]), actions[1..]);
    }
  }

  /** A well-formed store stays well formed through any session. */
  lemma {:induction false} SessionKeepsWellFormed(s: Store, actions: seq<Action>)
    requires WellFormed(s)
    ensures WellFormed(Session(s, actions))
    decreases |actions|
  {
    if actions != [] {
      match actions[0] {
        case SubmitRace(f, t) =>
          if ScreenFor(s) == CreateRaceScreen && CreateRace(s, f, t).Success? {
            CreateRaceKeepsWellFormed(s, f, t);
          }
        case SubmitCheckpoint(f) =>
          if ScreenFor(s) == RaceScreen && AddCheckpoint(s, f).Success? {
            AddCheckpointKeepsWellFormed(s, f);
          }
      }
      SessionKeepsWellFormed(Perform(s, actions[0]), actions[1..]);
    }
  }
}
