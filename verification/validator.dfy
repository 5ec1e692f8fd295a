/** `AppointmentValidator.validate`: every rule is checked and every broken
    rule contributes its message, in a fixed order. */
module Validator {
  import opened Text
  import opened Calendar
  import opened Appointments
  import Seqs

  const TitleRequired := "Title is required."
  const NameRequired := "Client name is required."
  const EmailRequired := "Client email is required."
  const EmailInvalid := "Please enter a valid email address."
  const PhoneRequired := "Client phone is required."
  const EndNotAfterStart := "End time must be after start time."
  const TooShort := "Appointment must be at least 15 minutes long."

  /** The shortest appointment the validator accepts, in minutes. */
  const MinimumMinutes: nat := 15

  function InvalidStatus(status: string): (m: string)
    ensures |m| > 0 && m[0] == 'I'
  {
    "Invalid status: " + status
  }

  /** `i` is the position of the last `@` in `e`. */
  predicate LastAt(e: string, i: int) {
    0 <= i < |e| && e[i] == '@' && '@' !in e[i + 1..]
  }

  /** The email shape `validate` accepts, stated by position: there is an
      `@`, and the text after the last one contains a `.`. */
  predicate EmailShapeOk(e: string) {
    exists i :: 0 <= i < |e| && LastAt(e, i) && '.' in e[i + 1..]
  }

  /** `validate`'s email test, as written: `"@" in e and "." in e.split("@")[-1]`. */
  predicate EmailLooksValid(e: string) {
    '@' in e && '.' in AfterLast(e, '@')
  }

  /** `validate`'s email test is exactly the positional shape rule. */
  lemma EmailShapeRule(e: string)
    ensures EmailLooksValid(e) <==> EmailShapeOk(e)
  {
    var r := AfterLast(e, '@');
    if '@' in e {
      assert |r| < |e|;
      var i := |e| - |r| - 1;
      assert e[i + 1..] == r;
      assert LastAt(e, i);
      if EmailShapeOk(e) {
        var j :| LastAt(e, j) && '.' in e[j + 1..];
        if j < i {
          assert e[j + 1..][i - j - 1] == '@';
        }
      }
    }
  }

  /** Every rule holds: the inputs the validator accepts. */
  predicate Acceptable(f: Fields) {
    && !IsBlank(f.title)
    && !IsBlank(f.clientName)
    && !IsBlank(f.clientEmail) && EmailShapeOk(f.clientEmail)
    && !IsBlank(f.clientPhone)
    && ValidStatus(f.status)
    && MinuteOfDay(f.end) - MinuteOfDay(f.start) >= MinimumMinutes
  }

  /** One rule of the validator: whether the input breaks it, and the
      message it then contributes. */
  datatype Check = Check(broken: bool, message: string)

  /** The rules in the order `validate` applies them. The second email rule
      is the `elif` branch: it only fires on a non-blank address. The time
      rules compare the start and end combined with the appointment's date. */
  function Checks(f: Fields): (cs: seq<Check>)
    ensures |cs| == 8
    ensures cs[2].broken <==> IsBlank(f.clientEmail)
    ensures cs[3].broken <==> !IsBlank(f.clientEmail) && !EmailShapeOk(f.clientEmail)
    ensures !(cs[2].broken && cs[3].broken)
    ensures cs[6].broken <==> MinuteOfDay(f.end) <= MinuteOfDay(f.start)
    ensures cs[6].broken ==> cs[7].broken
  {
    CombineOrder(f.date, f.start, f.end);
    EmailShapeRule(f.clientEmail);
    var startDt := Combine(f.date, f.start);
    var endDt := Combine(f.date, f.end);
    [ Check(IsBlank(f.title), TitleRequired),
      Check(IsBlank(f.clientName), NameRequired),
      Check(IsBlank(f.clientEmail), EmailRequired),
      Check(!IsBlank(f.clientEmail) && !EmailLooksValid(f.clientEmail), EmailInvalid),
      Check(IsBlank(f.clientPhone), PhoneRequired),
      Check(!ValidStatus(f.status), InvalidStatus(f.status)),
      Check(!Before(startDt, endDt), EndNotAfterStart),
      Check(endDt.minute - startDt.minute < MinimumMinutes, TooShort) ]
  }

  /** The messages of the broken rules, in rule order. */
  function Reported(cs: seq<Check>): (r: seq<string>)
    ensures |r| <= |cs|
    ensures forall m :: m in r <==> exists k :: 0 <= k < |cs| && cs[k].broken && cs[k].message == m
    ensures r == [] <==> forall k :: 0 <= k < |cs| ==> !cs[k].broken
  {
    if |cs| == 0 then []
    else
      var rest := Reported(cs[1..]);
      assert forall k :: 1 <= k < |cs| ==> cs[k] == cs[1..][k - 1];
      (if cs[0].broken then [cs[0].message] else []) + rest
  }

  /** Whether a rule is broken, as a predicate to filter the rules by. */
  function IsBroken(): Check -> bool {
    (c: Check) => c.broken
  }

  /** The messages of a run of rules, position by position. */
  function MessagesOf(cs: seq<Check>): (ms: seq<string>)
    ensures |ms| == |cs|
    ensures forall i :: 0 <= i < |cs| ==> ms[i] == cs[i].message
  {
    seq(|cs|, i requires 0 <= i < |cs| => cs[i].message)
  }

  /** Taking messages commutes with joining runs of rules. */
  lemma MessagesOfAppend(a: seq<Check>, b: seq<Check>)
    ensures MessagesOf(a + b) == MessagesOf(a) + MessagesOf(b)
  {
  }

  /** The reported list is the messages of the broken rules, kept in rule
      order by the order-keeping filter: one entry per broken rule. */
  lemma {:induction false} ReportedIsFilter(cs: seq<Check>)
    ensures Reported(cs) == MessagesOf(Seqs.Filter(cs, IsBroken()))
  {
    if |cs| > 0 {
      var kept := if cs[0].broken then [cs[0]] else [];
      var said := if cs[0].broken then [cs[0].message] else [];
      var rest := Seqs.Filter(cs[1..], IsBroken());
      assert Seqs.Filter(cs, IsBroken()) == kept + rest;
      assert Reported(cs) == said + Reported(cs[1..]);
      ReportedIsFilter(cs[1..]);
      MessagesOfAppend(kept, rest);
      assert MessagesOf(kept) == said;
    }
  }

  /** Eight rules report nothing exactly when none of the eight is broken. */
  lemma NothingReported(cs: seq<Check>)
    requires |cs| == 8
    ensures Reported(cs) == [] <==>
              !cs[0].broken && !cs[1].broken && !cs[2].broken && !cs[3].broken
              && !cs[4].broken && !cs[5].broken && !cs[6].broken && !cs[7].broken
  {
  }

  /** `validate`: the messages of all broken rules, none skipped because an
      earlier one failed; an acceptable input gets none. */
  function Validate(f: Fields): (r: seq<string>)
    ensures r == [] <==> Acceptable(f)
    ensures |r| <= 8
  {
    CombineOrder(f.date, f.start, f.end);
    EmailShapeRule(f.clientEmail);
    var cs := Checks(f);
    NothingReported(cs);
    Reported(cs)
  }

  /** Every message the validator can produce, in rule order. */
  function Messages(status: string): (ms: seq<string>)
    ensures |ms| == 8
  {
    [TitleRequired, NameRequired, EmailRequired, EmailInvalid, PhoneRequired,
     InvalidStatus(status), EndNotAfterStart, TooShort]
  }

  /** No two of the rules share a message. */
  predicate DistinctMessages(cs: seq<Check>) {
    forall j, k :: 0 <= j < |cs| && 0 <= k < |cs| && j != k ==> cs[j].message != cs[k].message
  }

  /** The eight messages, by position, are pairwise different. */
  lemma MessagesDistinctByIndex(status: string)
    ensures forall j, k :: 0 <= j < 8 && 0 <= k < 8 && j != k ==> Messages(status)[j] != Messages(status)[k]
  {
    MessagesDistinct(status);
    var ms := Messages(status);
    forall j, k | 0 <= j < 8 && 0 <= k < 8 && j != k
      ensures ms[j] != ms[k]
    {
    }
  }

  /** Rule `k` of `Checks` reports the `k`-th of the messages, and no two
      rules share one. */
  lemma ChecksMessages(f: Fields)
    ensures forall k :: 0 <= k < 8 ==> Checks(f)[k].message == Messages(f.status)[k]
    ensures DistinctMessages(Checks(f))
  {
    var cs := Checks(f);
    var ms := Messages(f.status);
    assert forall k :: 0 <= k < 8 ==> cs[k].message == ms[k];
    MessagesDistinctByIndex(f.status);
  }

  /** `validate` lists the messages of the broken rules in rule order, one
      per broken rule, and never the same message twice. */
  lemma ValidateInRuleOrder(f: Fields)
    ensures Validate(f) == MessagesOf(Seqs.Filter(Checks(f), IsBroken()))
    ensures forall i, j :: 0 <= i < j < |Validate(f)| ==> Validate(f)[i] != Validate(f)[j]
  {
    var cs := Checks(f);
    var kept := Seqs.Filter(cs, IsBroken());
    assert Validate(f) == Reported(cs);
    ReportedIsFilter(cs);
    ChecksMessages(f);
    var differ := (x: Check, y: Check) => x.message != y.message;
    assert forall i, j :: 0 <= i < j < |cs| ==> differ(cs[i], cs[j]);
    Seqs.FilterKeepsPairs(cs, IsBroken(), differ);
    assert forall i, j :: 0 <= i < j < |kept| ==> differ(kept[i], kept[j]);
  }

  /** Rule `k`'s message is reported exactly when rule `k` is broken. */
  lemma RuleReported(f: Fields, k: int)
    requires 0 <= k < 8
    ensures Messages(f.status)[k] in Validate(f) <==> Checks(f)[k].broken
  {
    var cs := Checks(f);
    ChecksMessages(f);
    assert Validate(f) == Reported(cs);
    ReportedOnce(cs, k);
  }

  /** Each text-field message is reported exactly when its rule is broken. */
  lemma ValidateReportsFieldRules(f: Fields)
    ensures TitleRequired in Validate(f) <==> IsBlank(f.title)
    ensures NameRequired in Validate(f) <==> IsBlank(f.clientName)
    ensures EmailRequired in Validate(f) <==> IsBlank(f.clientEmail)
    ensures EmailInvalid in Validate(f) <==> !IsBlank(f.clientEmail) && !EmailShapeOk(f.clientEmail)
    ensures PhoneRequired in Validate(f) <==> IsBlank(f.clientPhone)
  {
    EmailShapeRule(f.clientEmail);
    RuleReported(f, 0);
    RuleReported(f, 1);
    RuleReported(f, 2);
    RuleReported(f, 3);
    RuleReported(f, 4);
  }

  /** The status and time messages are reported exactly when their rules are
      broken, and no message outside the eight is ever reported. */
  lemma ValidateReportsStatusAndTimeRules(f: Fields)
    ensures InvalidStatus(f.status) in Validate(f) <==> !ValidStatus(f.status)
    ensures EndNotAfterStart in Validate(f) <==> MinuteOfDay(f.end) <= MinuteOfDay(f.start)
    ensures TooShort in Validate(f) <==> MinuteOfDay(f.end) - MinuteOfDay(f.start) < MinimumMinutes
    ensures forall m :: m in Validate(f) ==> m in Messages(f.status)
  {
    CombineOrder(f.date, f.start, f.end);
    var cs := Checks(f);
    var ms := Messages(f.status);
    RuleReported(f, 5);
    RuleReported(f, 6);
    RuleReported(f, 7);
    assert forall j :: 0 <= j < 8 ==> cs[j].message == ms[j];
  }

  /** A rule whose message no other rule shares is reported exactly when it
      is broken. */
  lemma ReportedOnce(cs: seq<Check>, k: int)
    requires 0 <= k < |cs| && DistinctMessages(cs)
    ensures cs[k].message in Reported(cs) <==> cs[k].broken
  {
  }

  /** The eight messages are pairwise different: they differ in length, in
      their first character, or (the three "Client ..." ones) in their eighth.
      The verifier does not look inside a literal this long, so the last one
      is first split in two. */
  lemma MessagesDistinct(status: string)
    ensures TitleRequired != NameRequired && TitleRequired != EmailRequired
    ensures TitleRequired != EmailInvalid && TitleRequired != PhoneRequired
    ensures TitleRequired != EndNotAfterStart && TitleRequired != TooShort
    ensures NameRequired != EmailRequired && NameRequired != EmailInvalid
    ensures NameRequired != PhoneRequired && NameRequired != EndNotAfterStart
    ensures NameRequired != TooShort
    ensures EmailRequired != EmailInvalid && EmailRequired != PhoneRequired
    ensures EmailRequired != EndNotAfterStart && EmailRequired != TooShort
    ensures EmailInvalid != PhoneRequired && EmailInvalid != EndNotAfterStart
    ensures EmailInvalid != TooShort
    ensures PhoneRequired != EndNotAfterStart && PhoneRequired != TooShort
    ensures EndNotAfterStart != TooShort
    ensures InvalidStatus(status) !in
              [TitleRequired, NameRequired, EmailRequired, EmailInvalid, PhoneRequired,
               EndNotAfterStart, TooShort]
  {
    assert InvalidStatus(status)[0] == 'I';
    assert TitleRequired[0] == 'T' && NameRequired[0] == 'C' && EmailRequired[0] == 'C';
    assert EmailInvalid[0] == 'P' && PhoneRequired[0] == 'C' && EndNotAfterStart[0] == 'E';
    assert TooShort == "Appointment must be at least 15 minutes " + "long.";
    assert EmailRequired[7] != PhoneRequired[7];
    assert NameRequired[7] != EmailRequired[7];
    assert NameRequired[7] != PhoneRequired[7];
  }

  /** An end that is not after the start breaks both time rules, whatever the
      other fields hold. */
  lemma EndNotAfterStartBreaksBothTimeRules(f: Fields)
    requires MinuteOfDay(f.end) <= MinuteOfDay(f.start)
    ensures EndNotAfterStart in Validate(f) && TooShort in Validate(f)
  {
    ValidateReportsStatusAndTimeRules(f);
  }

  /** Read off a stored appointment, the time rules are statements about
      its `duration_minutes`: too short exactly when under the minimum, and
      the end not after the start exactly when the duration is not positive. */
  lemma DurationRules(a: Appointment)
    ensures TooShort in Validate(FieldsOf(a)) <==> DurationMinutes(a) < MinimumMinutes
    ensures EndNotAfterStart in Validate(FieldsOf(a)) <==> DurationMinutes(a) <= 0
  {
    ValidateReportsStatusAndTimeRules(FieldsOf(a));
  }

  /** The rules are not short-circuited: a blank title together with a
      malformed email reports both. */
  lemma BlankTitleAndBadEmailBothReported(f: Fields)
    requires IsBlank(f.title)
    requires !IsBlank(f.clientEmail) && !EmailShapeOk(f.clientEmail)
    ensures TitleRequired in Validate(f) && EmailInvalid in Validate(f)
  {
    ValidateReportsFieldRules(f);
  }

  /** "Email required" and "invalid email" never appear together. */
  lemma EmailMessagesExclusive(f: Fields)
    ensures !(EmailRequired in Validate(f) && EmailInvalid in Validate(f))
  {
    ValidateReportsFieldRules(f);
  }
}
