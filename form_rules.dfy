/** The pure rules of the reservation form (js/form.js): the per-field rule
    chain of `validateField`, the cross-field check of `validateDates`, the
    checkout update made when the arrival date changes, and the data a
    submission collects. The state these rules act on is in FormController. */
module FormRules {
  import opened Wrappers
  import opened Text
  import opened Dates

  /** The `type` of a control, as far as the validator distinguishes it;
      text, textarea and select controls are `OtherKind`. */
  datatype Kind = Email | Tel | Number | Date | OtherKind

  /** One input, select or textarea of the form: its name, its `id`
      attribute if it has one, type, current value, `required` attribute,
      the value `form.reset()` restores, and the day its `min` attribute
      names, if it has one. */
  datatype Field = Field(name: string, id: Option<string>, kind: Kind, value: string, required: bool,
                         defaultValue: string, min: Option<int>)

  const RequiredMessage := "Toto pole je povinné."
  const EmailMessage := "Zadajte platnú emailovú adresu."
  const PhoneMessage := "Zadajte platné telefónne číslo (napr. +421 XXX XXX XXX)."
  const NumberMessage := "Zadajte číslo väčšie ako 0."
  const Chata1Message := "Chata 1 má kapacitu max. 6 osôb."
  const Chata2Message := "Chata 2 má kapacitu max. 4 osoby."
  const HallMessage := "Spoločenská miestnosť má kapacitu max. 30 osôb."
  const PastDateMessage := "Dátum nemôže byť v minulosti."
  const DateOrderMessage := "Dátum odchodu musí byť po dátume príchodu."

  // ---------------------------------------------------------------- e-mail

  /** A character of `[^\s@]`. */
  predicate IsEmailChar(c: char) {
    !IsWhitespace(c) && c != '@'
  }

  predicate AllEmailChars(s: string) {
    forall i | 0 <= i < |s| :: IsEmailChar(s[i])
  }

  /** What `/^[^\s@]+@[^\s@]+\.[^\s@]+$/` matches: three non-empty runs of
      characters other than white space and `@`, joined by `@` and `.`. */
  ghost predicate MatchesEmailPattern(s: string) {
    exists p, q | 0 < p && p + 1 < q && q + 1 < |s| ::
      && s[p] == '@' && s[q] == '.'
      && AllEmailChars(s[..p]) && AllEmailChars(s[p + 1..q]) && AllEmailChars(s[q + 1..])
  }

  function Count(s: string, c: char): nat {
    if s == [] then 0 else (if s[0] == c then 1 else 0) + Count(s[1..], c)
  }

  /** Position of the first `c` in `s`, or `|s|` when there is none. */
  function IndexOf(s: string, c: char): (i: nat)
    ensures i <= |s| && (i < |s| ==> s[i] == c)
    ensures forall j | 0 <= j < i :: s[j] != c
  {
    if s == [] then 0 else if s[0] == c then 0 else 1 + IndexOf(s[1..], c)
  }

  lemma {:induction false} CountNone(s: string, c: char)
    ensures Count(s, c) == 0 <==> forall j | 0 <= j < |s| :: s[j] != c
  {
    if s != [] {
      CountNone(s[1..], c);
      assert forall j | 1 <= j < |s| :: s[j] == s[1..][j - 1];
    }
  }

  /** `c` occurs exactly once in `s` iff it occurs and never after its first
      occurrence. */
  lemma {:induction false} CountOnce(s: string, c: char)
    ensures Count(s, c) == 1 <==>
            IndexOf(s, c) < |s| && forall j | IndexOf(s, c) < j < |s| :: s[j] != c
  {
    if s != [] {
      assert forall j | 1 <= j < |s| :: s[j] == s[1..][j - 1];
      if s[0] == c {
        CountNone(s[1..], c);
      } else {
        CountOnce(s[1..], c);
      }
    }
  }

  /** A dot with at least one character on each side of it. */
  predicate HasInnerDot(d: string) {
    exists j | 0 < j < |d| - 1 :: d[j] == '.'
  }

  /** The e-mail rule stated plainly: no white space anywhere, exactly one
      `@` with something before it, and after it a `.` with something on
      each side. */
  predicate IsValidEmail(s: string) {
    var p := IndexOf(s, '@');
    NoWhitespace(s) && Count(s, '@') == 1 && 0 < p < |s| && HasInnerDot(s[p + 1..])
  }

  /** Every character of a slice satisfies what every character of the
      whole string does. */
  lemma {:induction false} EmailCharsOfSlice(s: string, lo: int, hi: int)
    requires 0 <= lo <= hi <= |s|
    requires forall i | lo <= i < hi :: IsEmailChar(s[i])
    ensures AllEmailChars(s[lo..hi])
  {
    var seg := s[lo..hi];
    forall i | 0 <= i < |seg| ensures IsEmailChar(seg[i]) {
      assert seg[i] == s[lo + i];
    }
  }

  /** A string the regular expression matches satisfies the plain rule. */
  lemma {:induction false} EmailPatternSound(s: string)
    requires MatchesEmailPattern(s)
    ensures IsValidEmail(s)
  {
    var p, q :| 0 < p && p + 1 < q && q + 1 < |s| && s[p] == '@' && s[q] == '.'
                && AllEmailChars(s[..p]) && AllEmailChars(s[p + 1..q]) && AllEmailChars(s[q + 1..]);
    forall i | 0 <= i < |s| && i != p && i != q
      ensures IsEmailChar(s[i])
    {
      if i < p {
        assert s[i] == s[..p][i];
      } else if i < q {
        assert s[i] == s[p + 1..q][i - p - 1];
      } else {
        assert s[i] == s[q + 1..][i - q - 1];
      }
    }
    assert IndexOf(s, '@') == p;
    CountOnce(s, '@');
    assert s[p + 1..][q - p - 1] == '.';
  }

  /** A string satisfying the plain rule is matched by the regular
      expression. */
  lemma {:induction false} EmailPatternComplete(s: string)
    requires IsValidEmail(s)
    ensures MatchesEmailPattern(s)
  {
    CountOnce(s, '@');
    var p := IndexOf(s, '@');
    var d := s[p + 1..];
    var j :| 0 < j < |d| - 1 && d[j] == '.';
    var q := p + 1 + j;
    assert s[q] == '.';
    EmailCharsOfSlice(s, 0, p);
    EmailCharsOfSlice(s, p + 1, q);
    EmailCharsOfSlice(s, q + 1, |s|);
    assert s[..p] == s[0..p];
    assert s[q + 1..] == s[q + 1..|s|];
  }

  /** The plain statement of the e-mail rule accepts exactly what the
      regular expression of form.js matches. */
  lemma {:induction false} EmailPatternIff(s: string)
    ensures MatchesEmailPattern(s) <==> IsValidEmail(s)
  {
    if MatchesEmailPattern(s) {
      EmailPatternSound(s);
    }
    if IsValidEmail(s) {
      EmailPatternComplete(s);
    }
  }

  /** The two examples the form is meant to tell apart. */
  lemma {:induction false} EmailExamples()
    ensures !IsValidEmail("a@b")
    ensures IsValidEmail("a@b.cd")
  {
    assert "a@b.cd"[2..][1] == '.';
  }

  // ----------------------------------------------------------------- phone

  /** The prefixes `(\+421|00421|0)?` allows, the empty one included. */
  const PhonePrefixes: seq<string> := ["+421", "00421", "0", ""]

  predicate MatchesPhoneWith(s: string, prefix: string) {
    |s| == |prefix| + 9 && s[..|prefix|] == prefix && AllDigits(s[|prefix|..])
  }

  /** What `/^(\+421|00421|0)?[0-9]{9}$/` matches. */
  predicate MatchesPhonePattern(s: string) {
    exists i | 0 <= i < |PhonePrefixes| :: MatchesPhoneWith(s, PhonePrefixes[i])
  }

  /** The phone rule read from the end: the last nine characters are ASCII
      digits and what precedes them is one of the allowed prefixes. */
  lemma {:induction false} PhonePatternShape(s: string)
    ensures MatchesPhonePattern(s) <==>
            |s| >= 9 && AllDigits(s[|s| - 9..]) && s[..|s| - 9] in PhonePrefixes
  {
    if |s| >= 9 && AllDigits(s[|s| - 9..]) && s[..|s| - 9] in PhonePrefixes {
      var i :| 0 <= i < |PhonePrefixes| && PhonePrefixes[i] == s[..|s| - 9];
      assert MatchesPhoneWith(s, PhonePrefixes[i]);
    }
  }

  /** The value of a phone field is checked after all its white space is
      removed, so white space anywhere in it changes nothing. */
  predicate PhoneAccepted(value: string) {
    MatchesPhonePattern(StripWhitespace(value))
  }

  lemma {:induction false} StripAllWhitespace(w: string)
    requires AllWhitespace(w)
    ensures StripWhitespace(w) == []
  {
    if w != [] {
      StripAllWhitespace(w[1..]);
    }
  }

  lemma {:induction false} PhoneIgnoresWhitespace(a: string, w: string, b: string)
    requires AllWhitespace(w)
    ensures PhoneAccepted(a + w + b) <==> PhoneAccepted(a + b)
  {
    StripAllWhitespace(w);
    StripWhitespaceConcat(a, w);
    assert StripWhitespace(a + w) == StripWhitespace(a);
    StripWhitespaceConcat(a + w, b);
    StripWhitespaceConcat(a, b);
  }

  /** Any allowed prefix followed by nine digits passes, for instance
      +421901234567 and 0901234567. */
  lemma {:induction false} PrefixedDigitsAccepted(i: nat, digits: string)
    requires i < |PhonePrefixes| && |digits| == 9 && AllDigits(digits)
    ensures PhoneAccepted(PhonePrefixes[i] + digits)
  {
    var s := PhonePrefixes[i] + digits;
    var n := |PhonePrefixes[i]|;
    forall j | 0 <= j < |s| ensures !IsWhitespace(s[j]) {
      if j >= n {
        assert s[j] == digits[j - n];
      }
    }
    StripWhitespaceKeeps(s);
    assert s[..n] == PhonePrefixes[i] && s[n..] == digits;
    assert MatchesPhoneWith(s, PhonePrefixes[i]);
  }

  /** Three digits are no phone number. */
  lemma {:induction false} ShortPhoneRejected()
    ensures !PhoneAccepted("123")
  {
    StripWhitespaceKeeps("123");
  }

  // ---------------------------------------------------------------- number

  /** The capacity of each accommodation choice; any other choice, or no
      accommodation element at all, sets no ceiling. */
  function Ceiling(accommodation: Option<string>): Option<int> {
    if accommodation == Some("chata1") then Some(6)
    else if accommodation == Some("chata2") then Some(4)
    else if accommodation == Some("spolocenska") then Some(30)
    else None
  }

  /** The number rule as written: a value below 1 is rejected, and for the
      `persons` field a value above the chosen accommodation's capacity is
      rejected with that accommodation's message. `num` is `parseInt` of the
      value; NaN (`None`) compares false with everything and passes. */
  function NumberError(name: string, num: Option<int>, accommodation: Option<string>): Option<string> {
    var tooSmall := if num.Some? && num.value < 1 then Some(NumberMessage) else None;
    if name == "persons" && num.Some? then
      if accommodation == Some("chata1") && num.value > 6 then Some(Chata1Message)
      else if accommodation == Some("chata2") && num.value > 4 then Some(Chata2Message)
      else if accommodation == Some("spolocenska") && num.value > 30 then Some(HallMessage)
      else tooSmall
    else tooSmall
  }

  // ------------------------------------------------------------ one field

  /** `validateField`'s rule chain: the first rule that applies decides the
      error, `None` meaning the field is valid. */
  function FieldError(f: Field, accommodation: Option<string>, today: int): Option<string> {
    if f.required && Trim(f.value) == [] then Some(RequiredMessage)
    else if f.kind == Email && f.value != [] then
      if IsValidEmail(f.value) then None else Some(EmailMessage)
    else if f.kind == Tel && f.value != [] then
      if PhoneAccepted(f.value) then None else Some(PhoneMessage)
    else if f.kind == Number && f.value != [] then
      NumberError(f.name, ParseInt(f.value), accommodation)
    else if f.kind == Date && f.value != [] then
      if IsPastDate(f.value, today) then Some(PastDateMessage) else None
    else None
  }

  /** A required field holding only white space fails with the required
      message, whatever its type. */
  lemma {:induction false} RequiredTakesPrecedence(f: Field, accommodation: Option<string>, today: int)
    requires f.required && AllWhitespace(f.value)
    ensures FieldError(f, accommodation, today) == Some(RequiredMessage)
  {
  }

  /** Whether a field fails its own rule at all, before any message. */
  predicate FailsRequired(f: Field) {
    f.required && AllWhitespace(f.value)
  }

  /** A filled-in e-mail field passes exactly when the regular expression
      matches its value. */
  lemma {:induction false} EmailRule(f: Field, accommodation: Option<string>, today: int)
    requires f.kind == Email && f.value != [] && !FailsRequired(f)
    ensures FieldError(f, accommodation, today).None? <==> MatchesEmailPattern(f.value)
    ensures FieldError(f, accommodation, today).Some? ==> FieldError(f, accommodation, today) == Some(EmailMessage)
  {
    EmailPatternIff(f.value);
  }

  /** A filled-in phone field passes exactly when, white space removed, it
      is an optional +421, 00421 or 0 followed by nine ASCII digits. */
  lemma {:induction false} PhoneRule(f: Field, accommodation: Option<string>, today: int)
    requires f.kind == Tel && f.value != [] && !FailsRequired(f)
    ensures var s := StripWhitespace(f.value);
            FieldError(f, accommodation, today).None? <==>
            |s| >= 9 && AllDigits(s[|s| - 9..]) && s[..|s| - 9] in PhonePrefixes
    ensures FieldError(f, accommodation, today).Some? ==> FieldError(f, accommodation, today) == Some(PhoneMessage)
  {
    PhonePatternShape(StripWhitespace(f.value));
  }

  /** A filled-in number field that reads as the integer `n` passes exactly
      when `n >= 1` and, for `persons`, `n` does not exceed the chosen
      accommodation's capacity; the message names the limit broken. */
  lemma {:induction false} NumberRule(f: Field, n: int, accommodation: Option<string>, today: int)
    requires f.kind == Number && f.value != [] && !FailsRequired(f)
    requires ParseInt(f.value) == Some(n)
    ensures FieldError(f, accommodation, today).None? <==>
            n >= 1 && (f.name == "persons" && Ceiling(accommodation).Some? ==> n <= Ceiling(accommodation).value)
    ensures f.name == "persons" && accommodation == Some("chata1") && n > 6 ==>
            FieldError(f, accommodation, today) == Some(Chata1Message)
    ensures f.name == "persons" && accommodation == Some("chata2") && n > 4 ==>
            FieldError(f, accommodation, today) == Some(Chata2Message)
    ensures f.name == "persons" && accommodation == Some("spolocenska") && n > 30 ==>
            FieldError(f, accommodation, today) == Some(HallMessage)
    ensures n < 1 ==> FieldError(f, accommodation, today) == Some(NumberMessage)
  {
  }

  /** Seven persons do not fit the first cabin, six do. */
  lemma {:induction false} PersonsExamples(f: Field, today: int)
    requires f.kind == Number && f.name == "persons"
    ensures FieldError(f.(value := "7"), Some("chata1"), today) == Some(Chata1Message)
    ensures FieldError(f.(value := "6"), Some("chata1"), today) == None
  {
    var seven := f.(value := "7");
    var six := f.(value := "6");
    assert IntToString(7) == "7" && IntToString(6) == "6";
    assert !IsWhitespace(seven.value[0]) && !IsWhitespace(six.value[0]);
    IntToStringParses(7);
    IntToStringParses(6);
    NumberRule(seven, 7, Some("chata1"), today);
    NumberRule(six, 6, Some("chata1"), today);
  }

  /** A filled-in date field fails exactly when it names a day strictly
      before today; today itself passes, and so does text that is no date. */
  lemma {:induction false} DateRule(f: Field, accommodation: Option<string>, today: int)
    requires f.kind == Date && f.value != [] && !FailsRequired(f)
    ensures FieldError(f, accommodation, today).Some? <==>
            ParseIsoDate(f.value).Some? && ParseIsoDate(f.value).value < today
    ensures ParseIsoDate(f.value) == Some(today) ==> FieldError(f, accommodation, today).None?
  {
  }

  /** Fields of no checked type, and optional fields left empty, always
      pass. */
  lemma {:induction false} OtherFieldsPass(f: Field, accommodation: Option<string>, today: int)
    requires !FailsRequired(f)
    requires f.kind == OtherKind || f.value == []
    ensures FieldError(f, accommodation, today).None?
  {
  }

  // ------------------------------------------------------ the whole form

  /** `form.querySelector('[name="…"]')`: the first field with that name. */
  function FindByName(fs: seq<Field>, name: string): (r: Option<nat>)
    ensures r.Some? ==> r.value < |fs| && fs[r.value].name == name
    ensures r.Some? ==> forall j | 0 <= j < r.value :: fs[j].name != name
    ensures r.None? ==> forall j | 0 <= j < |fs| :: fs[j].name != name
  {
    if fs == [] then None
    else if fs[0].name == name then Some(0)
    else match FindByName(fs[1..], name)
      case Some(j) => Some(j + 1)
      case None => None
  }

  /** `document.getElementById(id)`: the first field carrying that id. */
  function FindById(fs: seq<Field>, id: string): (r: Option<nat>)
    ensures r.Some? ==> r.value < |fs| && fs[r.value].id == Some(id)
    ensures r.Some? ==> forall j | 0 <= j < r.value :: fs[j].id != Some(id)
    ensures r.None? ==> forall j | 0 <= j < |fs| :: fs[j].id != Some(id)
  {
    if fs == [] then None
    else if fs[0].id == Some(id) then Some(0)
    else match FindById(fs[1..], id)
      case Some(j) => Some(j + 1)
      case None => None
  }

  /** The value the capacity rule consults: that of the element with id
      "accommodation", or `undefined` (`None`) when there is none. */
  function Accommodation(fs: seq<Field>): Option<string> {
    match FindById(fs, "accommodation")
    case Some(j) => Some(fs[j].value)
    case None => None
  }

  /** The accommodation is the value of the first field with that id,
      whatever its name, and `undefined` exactly when no field has it. */
  lemma {:induction false} AccommodationById(fs: seq<Field>)
    ensures Accommodation(fs).None? <==> forall j | 0 <= j < |fs| :: fs[j].id != Some("accommodation")
    ensures forall j | 0 <= j < |fs| && fs[j].id == Some("accommodation") && (forall i | 0 <= i < j :: fs[i].id != Some("accommodation")) ::
              Accommodation(fs) == Some(fs[j].value)
  {
    var r := FindById(fs, "accommodation");
    if r.Some? {
      forall j | 0 <= j < |fs| && fs[j].id == Some("accommodation") && (forall i | 0 <= i < j :: fs[i].id != Some("accommodation"))
        ensures j == r.value
      {
      }
    }
  }

  /** What `validateDates` decides: nothing to check (a date missing or
      empty), or a verdict on the checkout field at the given index. */
  datatype RangeVerdict = Unchecked | InOrder(checkout: nat) | OutOfOrder(checkout: nat)

  function DateRange(fs: seq<Field>): (r: RangeVerdict)
    ensures !r.Unchecked? ==> r.checkout < |fs| && Some(r.checkout) == FindByName(fs, "checkout")
    ensures FindByName(fs, "checkin").None? || FindByName(fs, "checkout").None? ==> r.Unchecked?
  {
    var ci := FindByName(fs, "checkin");
    var co := FindByName(fs, "checkout");
    if ci.None? || co.None? then Unchecked
    else if fs[ci.value].value == [] || fs[co.value].value == [] then Unchecked
    else match (ParseIsoDate(fs[ci.value].value), ParseIsoDate(fs[co.value].value))
      case (Some(arrive), Some(leave)) =>
        if leave <= arrive then OutOfOrder(co.value) else InOrder(co.value)
      case _ => InOrder(co.value)
  }

  /** The date-range check fails exactly when both dates are present and
      readable and checkout is not strictly after checkin; it passes when
      either is missing or empty. */
  lemma {:induction false} DateRangeRule(fs: seq<Field>, arrive: nat, leave: nat)
    requires FindByName(fs, "checkin") == Some(arrive) && FindByName(fs, "checkout") == Some(leave)
    ensures DateRange(fs).OutOfOrder? <==>
            && ParseIsoDate(fs[arrive].value).Some? && ParseIsoDate(fs[leave].value).Some?
            && ParseIsoDate(fs[leave].value).value <= ParseIsoDate(fs[arrive].value).value
    ensures fs[arrive].value == [] || fs[leave].value == [] ==> DateRange(fs).Unchecked?
  {
  }

  /** The whole form passes: every required field passes its own rule and
      the date range is not out of order. */
  predicate FormIsValid(fs: seq<Field>, today: int) {
    && (forall i | 0 <= i < |fs| :: fs[i].required ==> FieldError(fs[i], Accommodation(fs), today).None?)
    && !DateRange(fs).OutOfOrder?
  }

  /** A form that passes has no required field left blank and no required
      date before today. */
  lemma {:induction false} ValidFormFields(fs: seq<Field>, today: int, i: nat)
    requires FormIsValid(fs, today)
    requires i < |fs| && fs[i].required
    ensures !AllWhitespace(fs[i].value)
    ensures fs[i].kind == Date ==> !IsPastDate(fs[i].value, today)
  {
    var f := fs[i];
    var accommodation := Accommodation(fs);
    assert FieldError(f, accommodation, today).None?;
    assert !AllWhitespace(f.value) by {
      if AllWhitespace(f.value) {
        RequiredTakesPrecedence(f, accommodation, today);
      }
    }
    if f.kind == Date && f.value != [] {
      DateRule(f, accommodation, today);
    }
  }

  /** A form that passes, with both dates filled in, has its checkout
      strictly after its checkin. */
  lemma {:induction false} ValidFormDates(fs: seq<Field>, today: int, arrive: nat, leave: nat)
    requires FormIsValid(fs, today)
    requires FindByName(fs, "checkin") == Some(arrive) && FindByName(fs, "checkout") == Some(leave)
    requires ParseIsoDate(fs[arrive].value).Some? && ParseIsoDate(fs[leave].value).Some?
    ensures ParseIsoDate(fs[arrive].value).value < ParseIsoDate(fs[leave].value).value
  {
  }

  // ------------------------------------------------- checkin change event

  /** The checkout field once the checkin holds `day`: its minimum becomes
      the next day, and a filled-in value that is not after `day` is
      emptied. Nothing else about the field changes. */
  function ClampedCheckout(checkout: Field, day: int): (r: Field)
    ensures r.min == Some(day + 1)
    ensures r.(min := checkout.min, value := checkout.value) == checkout
    ensures r.value == [] <==>
            checkout.value == [] || (ParseIsoDate(checkout.value).Some? && ParseIsoDate(checkout.value).value <= day)
    ensures r.value != [] ==> r.value == checkout.value
  {
    var leave := ParseIsoDate(checkout.value);
    var clear := checkout.value != [] && leave.Some? && leave.value <= day;
    checkout.(min := Some(day + 1), value := if clear then "" else checkout.value)
  }

  /** The `change` handler of the checkin input at index `k`: once that
      input holds a date, the first checkout field is clamped to it and no
      other field changes. Nothing changes when there is no checkout field,
      when the checkin is empty, or when it is no date (converting an
      Invalid Date with `toISOString` throws before anything is written). */
  function CheckinChanged(fs: seq<Field>, k: nat): (r: seq<Field>)
    requires k < |fs|
    ensures |r| == |fs|
    ensures forall j | 0 <= j < |fs| && Some(j) != FindByName(fs, "checkout") :: r[j] == fs[j]
    ensures fs[k].value == [] || ParseIsoDate(fs[k].value).None? || FindByName(fs, "checkout").None? ==> r == fs
  {
    var co := FindByName(fs, "checkout");
    if co.None? || fs[k].value == [] then fs
    else match ParseIsoDate(fs[k].value)
      case None => fs
      case Some(day) => fs[co.value := ClampedCheckout(fs[co.value], day)]
  }

  /** When the checkin holds the date `day`, the checkout field is the one
      clamped to it. */
  lemma {:induction false} CheckinChangedCheckout(fs: seq<Field>, k: nat, c: nat, day: int)
    requires k < |fs| && FindByName(fs, "checkout") == Some(c)
    requires fs[k].value != [] && ParseIsoDate(fs[k].value) == Some(day)
    ensures CheckinChanged(fs, k)[c] == ClampedCheckout(fs[c], day)
  {
  }

  /** After the checkin date changes to a date, the date-range check can no
      longer fail: the checkout is either emptied or already after it. */
  lemma {:induction false} CheckinChangeRestoresOrder(fs: seq<Field>, k: nat)
    requires FindByName(fs, "checkin") == Some(k)
    requires ParseIsoDate(fs[k].value).Some?
    ensures !DateRange(CheckinChanged(fs, k)).OutOfOrder?
  {
    var r := CheckinChanged(fs, k);
    var co := FindByName(fs, "checkout");
    if co.Some? {
      var c := co.value;
      var day := ParseIsoDate(fs[k].value).value;
      assert c != k;
      CheckinChangedCheckout(fs, k, c, day);
      assert r[c].name == fs[c].name;
      assert forall j | 0 <= j < |r| :: r[j].name == fs[j].name;
      FindByNameSameNames(fs, r, "checkin");
      FindByNameSameNames(fs, r, "checkout");
      assert r[k] == fs[k];
    }
  }

  /** The lookup by name only looks at names. */
  lemma {:induction false} FindByNameSameNames(a: seq<Field>, b: seq<Field>, name: string)
    requires |a| == |b| && forall j | 0 <= j < |a| :: a[j].name == b[j].name
    ensures FindByName(a, name) == FindByName(b, name)
  {
    var ra, rb := FindByName(a, name), FindByName(b, name);
    if ra.Some? && rb.Some? {
      assert !(ra.value < rb.value) && !(rb.value < ra.value);
    }
  }

  // ------------------------------------------------------------ submission

  /** `new FormData(form)` copied into a plain object: every named field
      contributes its name and value in document order, so a later field
      overwrites an earlier one of the same name; unnamed fields are not
      submitted. */
  function CollectData(fs: seq<Field>): (data: map<string, string>)
    ensures "" !in data
  {
    if fs == [] then map[]
    else
      var last := fs[|fs| - 1];
      var earlier := CollectData(fs[..|fs| - 1]);
      if last.name == "" then earlier else earlier[last.name := last.value]
  }

  /** The collected data has an entry for exactly the names of the fields,
      and each entry holds the value of the last field of that name. */
  lemma {:induction false} CollectDataEntry(fs: seq<Field>, key: string)
    ensures key in CollectData(fs) <==> key != "" && exists i | 0 <= i < |fs| :: fs[i].name == key
    ensures key in CollectData(fs) ==>
              exists i | 0 <= i < |fs| :: && fs[i].name == key && CollectData(fs)[key] == fs[i].value
                                           && forall j | i < j < |fs| :: fs[j].name != key
  {
    if fs == [] {
      return;
    }
    var init := fs[..|fs| - 1];
    var last := fs[|fs| - 1];
    var data := CollectData(fs);
    var earlier := CollectData(init);
    CollectDataEntry(init, key);
    assert forall i | 0 <= i < |init| :: init[i] == fs[i];
    if last.name == key && key != "" {
      assert key in data && data[key] == last.value;
      assert fs[|fs| - 1].name == key;
    } else {
      assert key in data <==> key in earlier;
      if key in earlier {
        assert data[key] == earlier[key];
        var i :| 0 <= i < |init| && init[i].name == key && earlier[key] == init[i].value
                 && forall j | i < j < |init| :: init[j].name != key;
        assert fs[i].name == key && data[key] == fs[i].value;
        assert forall j | i < j < |fs| :: fs[j].name != key by {
          forall j | i < j < |fs| ensures fs[j].name != key {
            if j < |init| {
              assert init[j].name != key;
            }
          }
        }
      } else if key != "" {
        assert forall i | 0 <= i < |fs| :: fs[i].name != key by {
          forall i | 0 <= i < |fs| ensures fs[i].name != key {
            if i < |init| {
              assert init[i].name != key;
            }
          }
        }
      }
    }
  }

  /** `form.reset()`: every field gets back its default value. */
  function ResetFields(fs: seq<Field>): seq<Field> {
    if fs == [] then []
    else ResetFields(fs[..|fs| - 1]) + [fs[|fs| - 1].(value := fs[|fs| - 1].defaultValue)]
  }

  /** Resetting changes values and nothing else: each field holds its
      default value and keeps its name, type, requiredness and minimum, so
      a reset form looks up the same fields as before. */
  lemma {:induction false} ResetRestoresDefaults(fs: seq<Field>)
    ensures |ResetFields(fs)| == |fs|
    ensures forall i | 0 <= i < |fs| ::
              ResetFields(fs)[i].value == fs[i].defaultValue && ResetFields(fs)[i].(value := fs[i].value) == fs[i]
    ensures forall name :: FindByName(ResetFields(fs), name) == FindByName(fs, name)
  {
    if fs != [] {
      ResetRestoresDefaults(fs[..|fs| - 1]);
    }
    forall name ensures FindByName(ResetFields(fs), name) == FindByName(fs, name) {
      FindByNameSameNames(ResetFields(fs), fs, name);
    }
  }
}
