/** The reservation form as an object whose state the handlers of
    js/form.js change in place: the field values, the error state of each
    form group, the submit button, the one outcome banner and the submission
    in flight. The rules they apply are in FormRules. */
module FormController {
  import opened Wrappers
  import opened Text
  import opened Dates
  import opened FormRules

  /** A `.form-group`: whether it has the `error` class, and the text of its
      `.error-message` element when it has one. */
  datatype Group = Group(hasError: bool, message: Option<string>)

  /** How `validateField` and `validateDates` display a verdict: an error
      marks the group and writes its message, no error unmarks the group and
      empties the message. */
  function ShowVerdict(g: Group, error: Option<string>): Group {
    Group(error.Some?, if g.message.None? then None else Some(if error.Some? then error.value else ""))
  }

  datatype Button = Button(disabled: bool, caption: string)

  /** The `.success-message` element: shown or not, its text, and whether it
      carries the red background `showError` gives it. */
  datatype Banner = Banner(shown: bool, text: string, errorStyle: bool)

  const BusyLabel := "Odosielam..."
  const IdleLabel := "Odoslať rezerváciu"
  const SuccessText := "Vaša rezervácia bola úspešne odoslaná! Čoskoro vás budeme kontaktovať."

  /** Each field's `.form-group` (what `closest('.form-group')` finds) as
      an index into the groups; several fields may share one. */
  predicate GroupsFit(fs: seq<Field>, gs: seq<Group>, groupOf: seq<nat>) {
    |groupOf| == |fs| && forall i | 0 <= i < |groupOf| :: groupOf[i] < |gs|
  }

  /** Every field's verdict under `validateField`, in document order. The
      contract only keeps the length; `VerdictsAt` states what each entry
      is. */
  function Verdicts(fs: seq<Field>, accommodation: Option<string>, today: int): (r: seq<Option<string>>)
    ensures |r| == |fs|
  {
    if fs == [] then []
    else Verdicts(fs[..|fs| - 1], accommodation, today) + [FieldError(fs[|fs| - 1], accommodation, today)]
  }

  lemma {:induction false} VerdictsAt(fs: seq<Field>, accommodation: Option<string>, today: int, j: nat)
    requires j < |fs|
    ensures Verdicts(fs, accommodation, today)[j] == FieldError(fs[j], accommodation, today)
  {
    if j < |fs| - 1 {
      VerdictsAt(fs[..|fs| - 1], accommodation, today, j);
    }
  }

  /** None of the first `n` required fields has a verdict against it. */
  predicate RequiredPass(fs: seq<Field>, vs: seq<Option<string>>, n: nat)
    requires |vs| == |fs| && n <= |fs|
  {
    n == 0 || (RequiredPass(fs, vs, n - 1) && (fs[n - 1].required ==> vs[n - 1].None?))
  }

  lemma {:induction false} RequiredPassAll(fs: seq<Field>, vs: seq<Option<string>>, n: nat)
    requires |vs| == |fs| && n <= |fs|
    ensures RequiredPass(fs, vs, n) <==> forall j | 0 <= j < n && fs[j].required :: vs[j].None?
  {
    if n > 0 {
      RequiredPassAll(fs, vs, n - 1);
    }
  }

  /** The form passes exactly when no required field has a verdict against
      it and the date range is not out of order. */
  lemma {:induction false} FormIsValidByVerdicts(fs: seq<Field>, today: int)
    ensures FormIsValid(fs, today) <==>
            RequiredPass(fs, Verdicts(fs, Accommodation(fs), today), |fs|) && !DateRange(fs).OutOfOrder?
  {
    var vs := Verdicts(fs, Accommodation(fs), today);
    RequiredPassAll(fs, vs, |fs|);
    forall j | 0 <= j < |fs| {
      VerdictsAt(fs, Accommodation(fs), today, j);
    }
  }

  /** The groups after the loop of `validateForm` has gone over the first
      `n` fields, in document order, with the verdicts `vs`: each required
      field writes its verdict to its own group, so a later field
      overwrites an earlier one of the same group. The contract only keeps
      the number of groups; `CheckedGroupsAt` states what each group shows. */
  function CheckedGroups(fs: seq<Field>, vs: seq<Option<string>>, gs: seq<Group>, groupOf: seq<nat>, n: nat): (r: seq<Group>)
    requires GroupsFit(fs, gs, groupOf) && |vs| == |fs| && n <= |fs|
    ensures |r| == |gs|
  {
    if n == 0 then gs
    else
      var before := CheckedGroups(fs, vs, gs, groupOf, n - 1);
      if fs[n - 1].required then before[groupOf[n - 1] := ShowVerdict(before[groupOf[n - 1]], vs[n - 1])]
      else before
  }

  /** The last required field among the first `n` whose group is `q`, if
      any. */
  function LastRequired(fs: seq<Field>, groupOf: seq<nat>, q: nat, n: nat): (r: Option<nat>)
    requires |groupOf| == |fs| && n <= |fs|
    ensures r.Some? ==> r.value < n && groupOf[r.value] == q && fs[r.value].required
    ensures r.Some? ==> forall j | r.value < j < n && groupOf[j] == q :: !fs[j].required
    ensures r.None? ==> forall j | 0 <= j < n && groupOf[j] == q :: !fs[j].required
  {
    if n == 0 then None
    else if fs[n - 1].required && groupOf[n - 1] == q then Some(n - 1)
    else LastRequired(fs, groupOf, q, n - 1)
  }

  /** After the loop a group shows the verdict of the last required field
      in it, and a group without a required field is as it was. */
  lemma {:induction false} CheckedGroupsAt(fs: seq<Field>, vs: seq<Option<string>>, gs: seq<Group>, groupOf: seq<nat>, q: nat, n: nat)
    requires GroupsFit(fs, gs, groupOf) && |vs| == |fs| && q < |gs| && n <= |fs|
    ensures CheckedGroups(fs, vs, gs, groupOf, n)[q] ==
            match LastRequired(fs, groupOf, q, n)
            case None => gs[q]
            case Some(j) => ShowVerdict(gs[q], vs[j])
  {
    if n > 0 {
      CheckedGroupsAt(fs, vs, gs, groupOf, q, n - 1);
    }
  }

  /** The groups after the loop of `validateForm`, every field checked
      against the accommodation chosen in the form. */
  function AfterFieldChecks(fs: seq<Field>, gs: seq<Group>, groupOf: seq<nat>, today: int): (r: seq<Group>)
    requires GroupsFit(fs, gs, groupOf)
    ensures |r| == |gs|
  {
    CheckedGroups(fs, Verdicts(fs, Accommodation(fs), today), gs, groupOf, |fs|)
  }

  /** The groups after `validateDates`. */
  function AfterDateCheck(fs: seq<Field>, gs: seq<Group>, groupOf: seq<nat>): (r: seq<Group>)
    requires GroupsFit(fs, gs, groupOf)
    ensures |r| == |gs|
  {
    match DateRange(fs)
    case Unchecked => gs
    case InOrder(k) => gs[groupOf[k] := ShowVerdict(gs[groupOf[k]], None)]
    case OutOfOrder(k) => gs[groupOf[k] := ShowVerdict(gs[groupOf[k]], Some(DateOrderMessage))]
  }

  /** `validateDates` writes to the checkout's group and to no other; that
      group shows an error exactly when the range is out of order. The
      checkin's group is left as the field check left it unless it is the
      checkout's group too. */
  lemma {:induction false} DateCheckTouchesOnlyCheckout(fs: seq<Field>, gs: seq<Group>, groupOf: seq<nat>)
    requires GroupsFit(fs, gs, groupOf)
    ensures forall q | 0 <= q < |gs| && (DateRange(fs).Unchecked? || q != groupOf[DateRange(fs).checkout]) ::
              AfterDateCheck(fs, gs, groupOf)[q] == gs[q]
    ensures !DateRange(fs).Unchecked? ==>
              (AfterDateCheck(fs, gs, groupOf)[groupOf[DateRange(fs).checkout]].hasError <==> DateRange(fs).OutOfOrder?)
    ensures forall ci, co | FindByName(fs, "checkin") == Some(ci) && FindByName(fs, "checkout") == Some(co) && groupOf[ci] != groupOf[co] ::
              AfterDateCheck(fs, gs, groupOf)[groupOf[ci]] == gs[groupOf[ci]]
  {
  }

  /** `validateForm` does not stop at the first failure: after it, a
      required field shows its own verdict, whatever the other fields hold,
      as long as no later required field and not the checkout shares its
      group. */
  lemma {:induction false} EveryRequiredFieldReported(fs: seq<Field>, gs: seq<Group>, groupOf: seq<nat>, today: int, i: nat)
    requires GroupsFit(fs, gs, groupOf) && i < |fs| && fs[i].required
    requires forall j | i < j < |fs| && groupOf[j] == groupOf[i] :: !fs[j].required
    requires DateRange(fs).Unchecked? || groupOf[DateRange(fs).checkout] != groupOf[i]
    ensures AfterDateCheck(fs, AfterFieldChecks(fs, gs, groupOf, today), groupOf)[groupOf[i]].hasError
            <==> FieldError(fs[i], Accommodation(fs), today).Some?
  {
    var vs := Verdicts(fs, Accommodation(fs), today);
    var checked := AfterFieldChecks(fs, gs, groupOf, today);
    CheckedGroupsAt(fs, vs, gs, groupOf, groupOf[i], |fs|);
    assert LastRequired(fs, groupOf, groupOf[i], |fs|) == Some(i);
    VerdictsAt(fs, Accommodation(fs), today, i);
    DateCheckTouchesOnlyCheckout(fs, checked, groupOf);
  }

  /** With one group per field, every required field other than the
      checkout shows its own verdict after `validateForm`. */
  lemma {:induction false} EveryRequiredFieldReportedOwnGroups(fs: seq<Field>, gs: seq<Group>, groupOf: seq<nat>, today: int, i: nat)
    requires GroupsFit(fs, gs, groupOf)
    requires forall j, k | 0 <= j < k < |groupOf| :: groupOf[j] != groupOf[k]
    requires i < |fs| && fs[i].required && Some(i) != FindByName(fs, "checkout")
    ensures AfterDateCheck(fs, AfterFieldChecks(fs, gs, groupOf, today), groupOf)[groupOf[i]].hasError
            <==> FieldError(fs[i], Accommodation(fs), today).Some?
  {
    EveryRequiredFieldReported(fs, gs, groupOf, today, i);
  }

  /** Two required fields in one group: the group shows only the later
      verdict, so an earlier failure goes unmarked although the form is
      rejected. */
  lemma {:induction false} SharedGroupHidesEarlierError(fs: seq<Field>, gs: seq<Group>, groupOf: seq<nat>, today: int, i: nat, j: nat)
    requires GroupsFit(fs, gs, groupOf) && i < j < |fs| && groupOf[i] == groupOf[j]
    requires fs[i].required && fs[j].required
    requires forall k | j < k < |fs| && groupOf[k] == groupOf[j] :: !fs[k].required
    requires DateRange(fs).Unchecked? || groupOf[DateRange(fs).checkout] != groupOf[j]
    requires FieldError(fs[i], Accommodation(fs), today).Some? && FieldError(fs[j], Accommodation(fs), today).None?
    ensures !AfterDateCheck(fs, AfterFieldChecks(fs, gs, groupOf, today), groupOf)[groupOf[i]].hasError
    ensures !FormIsValid(fs, today)
  {
    EveryRequiredFieldReported(fs, gs, groupOf, today, j);
  }

  /** The date-range check runs after the field checks and overwrites the
      checkout's group: a required checkout that fails its own rule (a day
      in the past, say) shows no error when it is after the checkin,
      although the form is rejected. */
  lemma {:induction false} CheckoutVerdictOverwritten(fs: seq<Field>, gs: seq<Group>, groupOf: seq<nat>, today: int, k: nat)
    requires GroupsFit(fs, gs, groupOf) && DateRange(fs) == InOrder(k)
    requires fs[k].required && FieldError(fs[k], Accommodation(fs), today).Some?
    ensures !AfterDateCheck(fs, AfterFieldChecks(fs, gs, groupOf, today), groupOf)[groupOf[k]].hasError
    ensures !FormIsValid(fs, today)
  {
  }

  class ReservationForm {
    var fields: seq<Field>
    var groups: seq<Group>
    /** The group of each field; the page's structure does not change. */
    const groupOf: seq<nat>
    var button: Button
    var banner: Banner
    /** The data of the submission whose completion is still to come. */
    var pending: Option<map<string, string>>

    /** Every field lies in one of the groups, and the submit button is
        disabled exactly while a submission is in flight, so at most one is
        ever in flight. */
    ghost predicate Valid()
      reads this
    {
      GroupsFit(fields, groups, groupOf) && (button.disabled <==> pending.Some?)
    }

    constructor (fields: seq<Field>, groups: seq<Group>, groupOf: seq<nat>, caption: string)
      requires GroupsFit(fields, groups, groupOf)
      ensures Valid()
      ensures this.fields == fields && this.groups == groups && this.groupOf == groupOf
      ensures button == Button(false, caption) && banner == Banner(false, "", false) && pending == None
    {
      this.fields := fields;
      this.groups := groups;
      this.groupOf := groupOf;
      button := Button(false, caption);
      banner := Banner(false, "", false);
      pending := None;
    }

    /** `initDatePickers`: every date input gets today as its minimum. */
    method InitDatePickers(today: int)
      requires Valid()
      modifies this`fields
      ensures Valid() && |fields| == |old(fields)|
      ensures forall i | 0 <= i < |fields| ::
                fields[i] == if old(fields)[i].kind == Date then old(fields)[i].(min := Some(today)) else old(fields)[i]
    {
      var i := 0;
      while i < |fields|
        invariant 0 <= i <= |fields| == |old(fields)|
        invariant forall j | 0 <= j < |fields| ::
                    fields[j] == if j < i && old(fields)[j].kind == Date then old(fields)[j].(min := Some(today)) else old(fields)[j]
      {
        if fields[i].kind == Date {
          fields := fields[i := fields[i].(min := Some(today))];
        }
        i := i + 1;
      }
    }

    /** `validateField` on the field at index `i` (also run on `blur`). */
    method ValidateField(i: nat, today: int) returns (ok: bool)
      requires Valid() && i < |fields|
      modifies this`groups
      ensures Valid()
      ensures ok <==> FieldError(fields[i], Accommodation(fields), today).None?
      ensures groups == old(groups)[groupOf[i] := ShowVerdict(old(groups)[groupOf[i]], FieldError(fields[i], Accommodation(fields), today))]
    {
      var error := FieldError(fields[i], Accommodation(fields), today);
      var g := groupOf[i];
      var slot := groups[g].message;
      if error.Some? {
        groups := groups[g := Group(true, if slot.Some? then Some(error.value) else None)];
        ok := false;
      } else {
        groups := groups[g := Group(false, if slot.Some? then Some("") else None)];
        ok := true;
      }
    }

    /** `validateDates`. */
    method ValidateDates() returns (ok: bool)
      requires Valid()
      modifies this`groups
      ensures Valid()
      ensures ok <==> !DateRange(fields).OutOfOrder?
      ensures groups == AfterDateCheck(fields, old(groups), groupOf)
    {
      var checkin := FindByName(fields, "checkin");
      var checkout := FindByName(fields, "checkout");
      if checkin.None? || checkout.None? {
        return true;
      }
      if fields[checkin.value].value == [] || fields[checkout.value].value == [] {
        return true;
      }
      var arrive := ParseIsoDate(fields[checkin.value].value);
      var leave := ParseIsoDate(fields[checkout.value].value);
      var g := groupOf[checkout.value];
      var slot := groups[g].message;
      if arrive.Some? && leave.Some? && leave.value <= arrive.value {
        groups := groups[g := Group(true, if slot.Some? then Some(DateOrderMessage) else None)];
        ok := false;
      } else {
        groups := groups[g := Group(false, if slot.Some? then Some("") else None)];
        ok := true;
      }
    }

    /** `validateField` as the loop of `validateForm` runs it: the verdict
        `v` it shows, computed once in ghost code, is named up front. */
    method ValidateRequired(i: nat, today: int, ghost v: Option<string>) returns (ok: bool)
      requires Valid() && i < |fields| && v == FieldError(fields[i], Accommodation(fields), today)
      modifies this`groups
      ensures Valid() && (ok <==> v.None?)
      ensures groups == old(groups)[groupOf[i] := ShowVerdict(old(groups)[groupOf[i]], v)]
    {
      ok := ValidateField(i, today);
    }

    /** `validateForm`: every required field is validated, in document
      order and without stopping at a failure, then the date range. */
    method ValidateForm(today: int) returns (ok: bool)
      requires Valid()
      modifies this`groups
      ensures Valid()
      ensures ok <==> FormIsValid(fields, today)
      ensures groups == AfterDateCheck(fields, AfterFieldChecks(fields, old(groups), groupOf, today), groupOf)
    {
      ok := true;
      var fs := fields;
      var accommodation := Accommodation(fs);
      ghost var vs := Verdicts(fs, accommodation, today);
      ghost var gs := groups;
      var i := 0;
      while i < |fs|
        invariant fields == fs && GroupsFit(fs, groups, groupOf) && (button.disabled <==> pending.Some?)
        invariant 0 <= i <= |fs|
        invariant groups == CheckedGroups(fs, vs, gs, groupOf, i)
        invariant ok == RequiredPass(fs, vs, i)
      {
        VerdictsAt(fs, accommodation, today, i);
        if fs[i].required {
          var fieldOk := ValidateRequired(i, today, vs[i]);
          if !fieldOk {
            ok := false;
          }
        }
        i := i + 1;
      }
      FormIsValidByVerdicts(fields, today);
      var datesOk := ValidateDates();
      if !datesOk {
        ok := false;
      }
    }

    /** The user types into, or picks a value for, the field at index `i`:
      the browser writes the new value before it fires `input` and
      `change`. Nothing else changes. */
    method Edit(i: nat, value: string)
      requires Valid() && i < |fields|
      modifies this`fields
      ensures Valid()
      ensures fields == old(fields)[i := old(fields)[i].(value := value)]
    {
      fields := fields[i := fields[i].(value := value)];
    }

    /** The `input` handler: typing into a field removes its group's error
      mark and leaves the message text as it is. */
    method OnInput(i: nat)
      requires Valid() && i < |fields|
      modifies this`groups
      ensures Valid()
      ensures groups == old(groups)[groupOf[i] := old(groups)[groupOf[i]].(hasError := false)]
    {
      var g := groupOf[i];
      if groups[g].hasError {
        groups := groups[g := groups[g].(hasError := false)];
      }
    }

    /** The `change` handler of the checkin date input at index `k`. */
    method OnCheckinChange(k: nat)
      requires Valid() && k < |fields| && fields[k].name == "checkin" && fields[k].kind == Date
      modifies this`fields
      ensures Valid()
      ensures fields == CheckinChanged(old(fields), k)
    {
      var checkout := FindByName(fields, "checkout");
      if checkout.Some? && fields[k].value != [] {
        var day := ParseIsoDate(fields[k].value);
        if day.Some? {
          var c := checkout.value;
          var input := fields[c].(min := Some(day.value + 1));
          var leave := ParseIsoDate(input.value);
          if input.value != [] && leave.Some? && leave.value <= day.value {
            input := input.(value := "");
          }
          assert input == ClampedCheckout(fields[c], day.value);
          fields := fields[c := input];
        }
      }
    }

    /** The `submit` handler. The browser dispatches no submit while the
      submit button is disabled, hence no submission is in flight. The form
      is submitted exactly when `validateForm` accepts it: the button is
      disabled and relabelled, and the collected data is handed over. */
    method OnSubmit(today: int) returns (submitted: bool)
      requires Valid() && pending.None?
      modifies this`groups, this`button, this`pending
      ensures Valid()
      ensures submitted <==> FormIsValid(fields, today)
      ensures groups == AfterDateCheck(fields, AfterFieldChecks(fields, old(groups), groupOf, today), groupOf)
      ensures submitted ==> button == Button(true, BusyLabel) && pending == Some(CollectData(fields))
      ensures !submitted ==> button == old(button) && pending == None
    {
      submitted := ValidateForm(today);
      if submitted {
        button := Button(true, BusyLabel);
        pending := Some(CollectData(fields));
      }
    }

    /** The end of the simulated round trip: success banner, `form.reset()`,
      and the button enabled again under its idle label. */
    method CompleteSubmission()
      requires Valid() && pending.Some?
      modifies this`fields, this`button, this`banner, this`pending
      ensures Valid()
      ensures fields == ResetFields(old(fields))
      ensures button == Button(false, IdleLabel) && pending == None
      ensures banner == Banner(true, SuccessText, old(banner).errorStyle)
    {
      ShowSuccess();
      ResetRestoresDefaults(fields);
      fields := ResetFields(fields);
      button := Button(false, IdleLabel);
      pending := None;
    }

    /** `showSuccess`: the banner is shown with the success text; a red
      background left by `showError` stays until that call's timer ends. */
    method ShowSuccess()
      modifies this`banner
      ensures banner == old(banner).(shown := true, text := SuccessText)
    {
      banner := banner.(shown := true, text := SuccessText);
    }

    /** `showError`: the banner is shown red with the given message. */
    method ShowError(message: string)
      modifies this`banner
      ensures banner == Banner(true, message, true)
    {
      banner := Banner(true, message, true);
    }

    /** The five-second timer `showSuccess` starts: the banner is hidden. */
    method SuccessBannerExpires()
      modifies this`banner
      ensures banner == old(banner).(shown := false)
    {
      banner := banner.(shown := false);
    }

    /** The five-second timer `showError` starts: the banner is hidden and
      loses its red background. */
    method ErrorBannerExpires()
      modifies this`banner
      ensures banner == old(banner).(shown := false, errorStyle := false)
    {
      banner := banner.(shown := false, errorStyle := false);
    }
  }

  /** A form whose one field is a blank required "name" does not pass. */
  lemma {:induction false} BlankNameRefused(name: Field, today: int)
    requires name == Field("name", None, OtherKind, "", true, "", None)
    ensures !FormIsValid([name], today)
  {
    RequiredTakesPrecedence(name, None, today);
    assert Accommodation([name]) == None;
  }

  /** The same form passes once the name reads "Jana". */
  lemma {:induction false} TypedNameAccepted(typed: Field, today: int)
    requires typed == Field("name", None, OtherKind, "Jana", true, "", None)
    ensures FormIsValid([typed], today)
  {
    assert !IsWhitespace(typed.value[0]);
    OtherFieldsPass(typed, None, today);
    assert Accommodation([typed]) == None;
  }

  /** The user types "Jana" into the form's blank name field and submits
      again; this time the form goes through. */
  method TypeNameAndResubmit(form: ReservationForm, today: int) returns (submitted: bool)
    requires form.Valid() && form.pending.None?
    requires form.fields == [Field("name", None, OtherKind, "", true, "", None)]
    modifies form
    ensures submitted
  {
    form.Edit(0, "Jana");
    var typed := form.fields[0];
    assert form.fields == [typed];
    TypedNameAccepted(typed, today);
    submitted := form.OnSubmit(today);
  }

  /** A required name left empty stops the submission; once the user
      types a name, the next submit goes through. */
  method ResubmitAfterCorrection(today: int) returns (first: bool, second: bool)
    ensures !first && second
  {
    var name := Field("name", None, OtherKind, "", true, "", None);
    var form := new ReservationForm([name], [Group(false, Some(""))], [0], IdleLabel);
    BlankNameRefused(name, today);
    first := form.OnSubmit(today);
    second := TypeNameAndResubmit(form, today);
  }
}
