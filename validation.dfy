/** The request validators: each rule set lists, field by field, the error
    of every check that fails (the validator library runs every check of a
    chain, it does not stop at the first failure), and `validate` turns a
    non-empty list into a 400 reply. The phone-number library and the URL
    check are parameters. */
module Validation {
  import opened Common

  datatype FieldError = FieldError(field: string, message: string)

  /** What `validate` does: hand the request to the next handler, or reply
      400 with one `{field, message}` per error. */
  datatype Verdict = Next | BadRequest(status: int, errors: seq<FieldError>)

  function Validate(errors: seq<FieldError>): (r: Verdict)
    ensures r.Next? <==> errors == []
    ensures r.BadRequest? ==> r.status == 400 && r.errors == errors
  {
    if errors == [] then Next else BadRequest(400, errors)
  }

  // ---------------------------------------------------------------------
  // The string sanitizer and the length measure

  /** A character of the regular-expression class `\s`, which `trim()` strips
      and the first-name pattern admits. */
  predicate IsJsSpace(c: char)
  {
    c == '\t' || c == '\n' || c == '\U{0B}' || c == '\U{0C}' || c == '\r' || c == ' '
    || c == '\U{A0}' || c == '\U{1680}' || ('\U{2000}' <= c <= '\U{200A}')
    || c == '\U{2028}' || c == '\U{2029}' || c == '\U{202F}' || c == '\U{205F}'
    || c == '\U{3000}' || c == '\U{FEFF}'
  }

  /** Where the run of whitespace that starts at `i` ends. */
  function SpacesFrom(s: string, i: nat): (j: nat)
    requires i <= |s|
    ensures i <= j <= |s|
    ensures forall k :: i <= k < j ==> IsJsSpace(s[k])
    ensures j < |s| ==> !IsJsSpace(s[j])
    decreases |s| - i
  {
    if i < |s| && IsJsSpace(s[i]) then SpacesFrom(s, i + 1) else i
  }

  /** Where the run of whitespace that ends at `j` starts, going no lower
      than `lo`. */
  function SpacesBefore(s: string, lo: nat, j: nat): (i: nat)
    requires lo <= j <= |s|
    ensures lo <= i <= j
    ensures forall k :: i <= k < j ==> IsJsSpace(s[k])
    ensures i > lo ==> !IsJsSpace(s[i - 1])
    decreases j
  {
    if j > lo && IsJsSpace(s[j - 1]) then SpacesBefore(s, lo, j - 1) else j
  }

  /** `trim()`: the leading whitespace goes first, then the trailing
      whitespace of what is left. */
  function Trim(s: string): (r: string)
    ensures |r| <= |s|
    ensures r != [] ==> !IsJsSpace(r[0]) && !IsJsSpace(r[|r| - 1])
  {
    var i := SpacesFrom(s, 0);
    s[i..SpacesBefore(s, i, |s|)]
  }

  /** `trim()` removes whitespace from both ends and nothing else: what it
      returns is the stretch of `s` between a leading and a trailing run of
      whitespace. */
  lemma TrimMeaning(s: string)
    ensures var i := SpacesFrom(s, 0);
      var j := SpacesBefore(s, i, |s|);
      && Trim(s) == s[i..j]
      && (forall k :: 0 <= k < i ==> IsJsSpace(s[k]))
      && (forall k :: j <= k < |s| ==> IsJsSpace(s[k]))
  {
  }

  /** `trim()` gives the empty string exactly when `s` is all whitespace. */
  lemma TrimEmpty(s: string)
    ensures Trim(s) == [] <==> forall k :: 0 <= k < |s| ==> IsJsSpace(s[k])
  {
    TrimMeaning(s);
  }

  /** Trimming is idempotent, so a value stored after validation validates
      again unchanged. */
  lemma TrimIdempotent(s: string)
    ensures Trim(Trim(s)) == Trim(s)
  {
    var r := Trim(s);
    if r != [] {
      assert SpacesFrom(r, 0) == 0;
      assert SpacesBefore(r, 0, |r|) == |r|;
    }
  }

  predicate IsVariationSelector(c: char)
  {
    c == '\U{FE0E}' || c == '\U{FE0F}'
  }

  function VariationSelectors(s: string): (n: nat)
    ensures n <= |s|
  {
    if s == [] then 0
    else VariationSelectors(s[..|s| - 1]) + (if IsVariationSelector(s[|s| - 1]) then 1 else 0)
  }

  /** `isLength`: one per code point (a surrogate pair counts once), and
      presentation selectors do not count. */
  function ValidatorLength(s: string): (n: nat)
    ensures n <= |s|
  {
    |s| - VariationSelectors(s)
  }

  /** Without presentation selectors the measure is the number of code
      points. */
  lemma {:induction false} NoSelectorsCount(s: string)
    ensures (forall k :: 0 <= k < |s| ==> !IsVariationSelector(s[k])) ==> VariationSelectors(s) == 0
    decreases |s|
  {
    if s != [] {
      NoSelectorsCount(s[..|s| - 1]);
      assert forall k :: 0 <= k < |s| - 1 ==> s[..|s| - 1][k] == s[k];
    }
  }

  /** The string the checks see for a field that may be missing: a missing
      value reads as the empty string. */
  function TextOf(raw: Option<string>): string
  {
    if raw.Some? then raw.value else ""
  }

  // ---------------------------------------------------------------------
  // isInt

  predicate AllDigits(t: string)
  {
    t != [] && forall i :: 0 <= i < |t| ==> IsDigit(t[i])
  }

  /** The integer an `isInt` string denotes: an optional sign and at least one
      decimal digit, leading zeros allowed. */
  function IntegerText(s: string): Option<int>
  {
    if AllDigits(s) then Some(DigitsValue(s))
    else if |s| >= 2 && s[0] == '+' && AllDigits(s[1..]) then Some(DigitsValue(s[1..]))
    else if |s| >= 2 && s[0] == '-' && AllDigits(s[1..]) then Some(0 - DigitsValue(s[1..]))
    else None
  }

  /** Whatever `String(i)` writes, `isInt` reads back as `i`. */
  lemma IntegerTextOfIntToString(i: int)
    ensures IntegerText(IntToString(i)) == Some(i)
  {
    if i < 0 {
      NegativeIntText(i);
    } else {
      UnsignedText(i);
    }
  }

  lemma UnsignedText(n: nat)
    ensures IntegerText(NatToString(n)) == Some(n)
  {
    DigitsValueOfNatToString(n);
    assert AllDigits(NatToString(n));
  }

  lemma NegativeIntText(i: int)
    requires i < 0
    ensures IntegerText(IntToString(i)) == Some(i)
  {
    var t := NatToString(-i);
    NegativeForm(i);
    NegativeText(-i, t);
  }

  lemma NegativeForm(i: int)
    requires i < 0
    ensures IntToString(i) == "-" + NatToString(-i)
  {
  }

  lemma NegativeText(n: nat, t: string)
    requires t == NatToString(n)
    ensures IntegerText("-" + t) == Some(0 - n)
  {
    DigitsValueOfNatToString(n);
    SignedText(t);
  }

  /** A minus sign before a run of digits reads as the negated value. */
  lemma SignedText(t: string)
    requires AllDigits(t)
    ensures IntegerText("-" + t) == Some(0 - DigitsValue(t))
  {
    var s := "-" + t;
    assert s[1..] == t;
    assert !IsDigit(s[0]);
  }

  predicate InRange(n: int, min: int, max: Option<int>)
  {
    min <= n && (max.None? || n <= max.value)
  }

  /** `isInt({ min, max })` on a JSON value: a number must be an integer in
      range; a string must spell one; anything else reads as text that is
      not an integer. */
  predicate IsIntIn(v: Value, min: int, max: Option<int>)
  {
    match v
    case Num(x) => x.Floor as real == x && InRange(x.Floor, min, max)
    case Str(s) => IntegerText(s).Some? && InRange(IntegerText(s).value, min, max)
    case _ => false
  }

  // ---------------------------------------------------------------------
  // validateLogin and validateParticipant

  const FirstNameField: string := "firstName"
  const PhoneField: string := "phoneNumber"
  const FirstNameRequired: string := "First name is required"
  const FirstNameLength: string := "First name must be 2-50 characters"
  const FirstNameCharacters: string := "First name can only contain letters, spaces, hyphens, and apostrophes"
  const PhoneRequired: string := "Phone number is required"
  const PhoneInvalid: string := "Invalid phone number format"

  /** The class `[a-zA-Z\s'-]`. */
  predicate NameChar(c: char)
  {
    ('a' <= c <= 'z') || ('A' <= c <= 'Z') || IsJsSpace(c) || c == '\'' || c == '-'
  }

  predicate AllNameChars(t: string)
  {
    forall i :: 0 <= i < |t| ==> NameChar(t[i])
  }

  /** The first name after trimming: 2 to 50 characters, all from the
      class. */
  function FirstNameErrors(raw: Option<string>): (r: seq<FieldError>)
    ensures var t := Trim(TextOf(raw));
      r == [] <==> 2 <= ValidatorLength(t) <= 50 && AllNameChars(t)
    ensures forall e :: e in r ==> e.field == FirstNameField
  {
    var t := Trim(TextOf(raw));
    (if t == "" then [FieldError(FirstNameField, FirstNameRequired)] else [])
    + (if !(2 <= ValidatorLength(t) <= 50) then [FieldError(FirstNameField, FirstNameLength)] else [])
    + (if !(t != "" && AllNameChars(t))
       then [FieldError(FirstNameField, FirstNameCharacters)] else [])
  }

  /** The phone number after trimming: present, and valid for the phone
      library (`isValidPhone`, which also sees the empty string). */
  function PhoneErrors(raw: Option<string>, isValidPhone: string -> bool): (r: seq<FieldError>)
    ensures r == [] <==> Trim(TextOf(raw)) != "" && isValidPhone(Trim(TextOf(raw)))
    ensures forall e :: e in r ==> e.field == PhoneField
  {
    var t := Trim(TextOf(raw));
    (if t == "" then [FieldError(PhoneField, PhoneRequired)] else [])
    + (if !isValidPhone(t) then [FieldError(PhoneField, PhoneInvalid)] else [])
  }

  /** `validateLogin` and `validateParticipant`, which have the same two
      chains: first-name errors come before phone errors. */
  function PersonErrors(firstName: Option<string>, phoneNumber: Option<string>, isValidPhone: string -> bool): (r: seq<FieldError>)
    ensures r == FirstNameErrors(firstName) + PhoneErrors(phoneNumber, isValidPhone)
    ensures Validate(r).Next? <==>
      var n := Trim(TextOf(firstName));
      var p := Trim(TextOf(phoneNumber));
      && 2 <= ValidatorLength(n) <= 50 && AllNameChars(n)
      && p != "" && isValidPhone(p)
  {
    FirstNameErrors(firstName) + PhoneErrors(phoneNumber, isValidPhone)
  }

  /** An empty first name fails all three of its checks, and each reports
      its own error. */
  lemma EmptyNameReportsAll(raw: Option<string>)
    requires Trim(TextOf(raw)) == ""
    ensures |FirstNameErrors(raw)| == 3
  {
    var t := Trim(TextOf(raw));
    assert ValidatorLength(t) == 0;
  }

  /** A name of whitespace only is refused however long it is. */
  lemma BlankNameRefused(raw: string, phone: Option<string>, isValidPhone: string -> bool)
    requires forall k :: 0 <= k < |raw| ==> IsJsSpace(raw[k])
    ensures Validate(PersonErrors(Some(raw), phone, isValidPhone)).BadRequest?
    ensures FieldError(FirstNameField, FirstNameRequired) in PersonErrors(Some(raw), phone, isValidPhone)
  {
    TrimEmpty(raw);
  }

  // ---------------------------------------------------------------------
  // validateWishListItem

  const ItemNameField: string := "itemName"
  const DescriptionField: string := "description"
  const LinkField: string := "link"
  const PriceRangeField: string := "priceRange"
  const PriorityField: string := "priority"
  const ItemNameRequired: string := "Item name is required"
  const ItemNameLength: string := "Item name must be 2-255 characters"
  const DescriptionLength: string := "Description must be less than 1000 characters"
  const LinkNotUrl: string := "Link must be a valid URL"
  const LinkLength: string := "Link must be less than 500 characters"
  const PriceRangeLength: string := "Price range must be less than 50 characters"
  const PriorityRange: string := "Priority must be 1, 2, or 3"

  /** An optional trimmed field under a length cap: a missing field is not
      checked. */
  function CappedErrors(raw: Option<string>, cap: nat, field: string, message: string): (r: seq<FieldError>)
    ensures r == [] <==> raw.None? || ValidatorLength(Trim(raw.value)) <= cap
    ensures r != [] ==> r == [FieldError(field, message)]
  {
    if raw.Some? && ValidatorLength(Trim(raw.value)) > cap then [FieldError(field, message)] else []
  }

  /** The link chain as written: only a missing link skips it, so the empty
      string the wish-list form sends for a blank link box is checked as a
      URL. */
  function LinkErrorsAsWritten(link: Option<string>, isUrl: string -> bool): (r: seq<FieldError>)
    ensures r == [] <==> link.None? || (isUrl(Trim(link.value)) && ValidatorLength(Trim(link.value)) <= 500)
  {
    if link.None? then []
    else
      var t := Trim(link.value);
      (if !isUrl(t) then [FieldError(LinkField, LinkNotUrl)] else [])
      + (if ValidatorLength(t) > 500 then [FieldError(LinkField, LinkLength)] else [])
  }

  /** The link chain as the controller's `link || null` intends it: a blank
      link means no link. */
  function LinkErrors(link: Option<string>, isUrl: string -> bool): (r: seq<FieldError>)
    ensures r == [] <==>
      (link.None? || link.value == "" || (isUrl(Trim(link.value)) && ValidatorLength(Trim(link.value)) <= 500))
    ensures link.Some? && link.value != "" ==> r == LinkErrorsAsWritten(link, isUrl)
  {
    if link.Some? && link.value == "" then [] else LinkErrorsAsWritten(link, isUrl)
  }

  /** The checks other than the link's, with the link's errors in their place
      between the description's and the price range's. */
  function ItemErrorsAround(itemName: Option<string>, description: Option<string>, linkErrors: seq<FieldError>,
                            priceRange: Option<string>, priority: Value): (r: seq<FieldError>)
    ensures var n := Trim(TextOf(itemName));
      r == [] <==>
        && 2 <= ValidatorLength(n) <= 255
        && (description.None? || ValidatorLength(Trim(description.value)) <= 1000)
        && linkErrors == []
        && (priceRange.None? || ValidatorLength(Trim(priceRange.value)) <= 50)
        && (priority.Undefined? || IsIntIn(priority, 1, Some(3)))
  {
    var n := Trim(TextOf(itemName));
    (if n == "" then [FieldError(ItemNameField, ItemNameRequired)] else [])
    + (if !(2 <= ValidatorLength(n) <= 255) then [FieldError(ItemNameField, ItemNameLength)] else [])
    + CappedErrors(description, 1000, DescriptionField, DescriptionLength)
    + linkErrors
    + CappedErrors(priceRange, 50, PriceRangeField, PriceRangeLength)
    + (if !priority.Undefined? && !IsIntIn(priority, 1, Some(3)) then [FieldError(PriorityField, PriorityRange)] else [])
  }

  /** `validateWishListItem` as written. */
  function ItemErrorsAsWritten(itemName: Option<string>, description: Option<string>, link: Option<string>,
                               priceRange: Option<string>, priority: Value, isUrl: string -> bool): (r: seq<FieldError>)
    ensures r == [] ==> link.None? || isUrl(Trim(link.value))
  {
    ItemErrorsAround(itemName, description, LinkErrorsAsWritten(link, isUrl), priceRange, priority)
  }

  /** `validateWishListItem` with a blank link treated as no link: the item
      name after trimming is 2 to 255 characters, the description at most
      1000, a non-blank link a URL of at most 500, the price range at most 50,
      and a priority, when sent, an integer from 1 to 3. */
  function ItemErrors(itemName: Option<string>, description: Option<string>, link: Option<string>,
                      priceRange: Option<string>, priority: Value, isUrl: string -> bool): (r: seq<FieldError>)
    ensures var n := Trim(TextOf(itemName));
      r == [] <==>
        && 2 <= ValidatorLength(n) <= 255
        && (description.None? || ValidatorLength(Trim(description.value)) <= 1000)
        && (link.None? || link.value == "" || (isUrl(Trim(link.value)) && ValidatorLength(Trim(link.value)) <= 500))
        && (priceRange.None? || ValidatorLength(Trim(priceRange.value)) <= 50)
        && (priority.Undefined? || IsIntIn(priority, 1, Some(3)))
  {
    ItemErrorsAround(itemName, description, LinkErrors(link, isUrl), priceRange, priority)
  }

  /** The wish-list form with its link box left blank: the rules as written
      refuse an otherwise valid item, because the URL check rejects the empty
      string; with a blank link read as no link it is accepted. */
  lemma BlankLinkRefused(isUrl: string -> bool)
    requires !isUrl("")
    ensures ItemErrorsAsWritten(Some("Socks"), Some(""), Some(""), Some(""), Num(2.0), isUrl)
      == [FieldError(LinkField, LinkNotUrl)]
    ensures ItemErrors(Some("Socks"), Some(""), Some(""), Some(""), Num(2.0), isUrl) == []
  {
    assert Trim("Socks") == "Socks" by {
      assert SpacesFrom("Socks", 0) == 0;
      assert SpacesBefore("Socks", 0, 5) == 5;
    }
    assert forall k :: 0 <= k < |"Socks"| ==> !IsVariationSelector("Socks"[k]);
    NoSelectorsCount("Socks");
  }

  /** The two readings differ only on a blank link. */
  lemma ItemErrorsAgreeOffBlank(itemName: Option<string>, description: Option<string>, link: Option<string>,
                                priceRange: Option<string>, priority: Value, isUrl: string -> bool)
    requires link.None? || link.value != ""
    ensures ItemErrors(itemName, description, link, priceRange, priority, isUrl)
      == ItemErrorsAsWritten(itemName, description, link, priceRange, priority, isUrl)
  {
  }

  // ---------------------------------------------------------------------
  // validateExclusionRule and validateFamilyGroup

  const ParticipantIdField: string := "participantId"
  const ExcludedIdField: string := "excludedParticipantId"
  const ReasonField: string := "reason"
  const ParticipantIdsField: string := "participantIds"
  const ParticipantIdInvalid: string := "Participant ID must be a positive integer"
  const ExcludedIdInvalid: string := "Excluded participant ID must be a positive integer"
  const SelfExclusion: string := "A participant cannot exclude themselves"
  const ReasonLength: string := "Reason must be less than 255 characters"
  const GroupTooSmall: string := "At least 2 participants required for a family group"
  const GroupIdsInvalid: string := "All participant IDs must be positive integers"

  /** Both ids are positive integers, the excluded one is not strictly equal
      to the other, and a reason has at most 255 characters. */
  function ExclusionRuleErrors(participantId: Value, excludedParticipantId: Value, reason: Option<string>): (r: seq<FieldError>)
    ensures r == [] <==>
      && IsIntIn(participantId, 1, None) && IsIntIn(excludedParticipantId, 1, None)
      && !StrictEquals(excludedParticipantId, participantId)
      && (reason.None? || ValidatorLength(Trim(reason.value)) <= 255)
    ensures participantId.Num? && excludedParticipantId.Num? && participantId.x == excludedParticipantId.x ==>
      FieldError(ExcludedIdField, SelfExclusion) in r
  {
    (if !IsIntIn(participantId, 1, None) then [FieldError(ParticipantIdField, ParticipantIdInvalid)] else [])
    + (if !IsIntIn(excludedParticipantId, 1, None) then [FieldError(ExcludedIdField, ExcludedIdInvalid)] else [])
    + (if StrictEquals(excludedParticipantId, participantId) then [FieldError(ExcludedIdField, SelfExclusion)] else [])
    + CappedErrors(reason, 255, ReasonField, ReasonLength)
  }

  /** The self-exclusion check compares the raw JSON values, so the same id
      sent once as a number and once as a string passes it. */
  lemma SelfCheckComparesRawValues()
    ensures ExclusionRuleErrors(Num(3.0), Str("3"), None) == []
  {
    assert IntegerText("3") == Some(3);
  }

  /** Every element is a positive integral number (`Number.isInteger` and
      `> 0`). */
  predicate AllPositiveIntegers(items: seq<Value>)
  {
    forall i :: 0 <= i < |items| ==> IsIntegerNumber(items[i]) && items[i].x > 0.0
  }

  /** An array of at least two positive integral numbers, and a reason of at
      most 255 characters. A value that is not an array fails both checks,
      the second because calling `every` on it throws. */
  function FamilyGroupErrors(participantIds: Value, reason: Option<string>): (r: seq<FieldError>)
    ensures r == [] <==>
      && participantIds.Arr? && |participantIds.items| >= 2 && AllPositiveIntegers(participantIds.items)
      && (reason.None? || ValidatorLength(Trim(reason.value)) <= 255)
    ensures !participantIds.Arr? ==>
      FieldError(ParticipantIdsField, GroupTooSmall) in r && FieldError(ParticipantIdsField, GroupIdsInvalid) in r
  {
    (if !(participantIds.Arr? && |participantIds.items| >= 2) then [FieldError(ParticipantIdsField, GroupTooSmall)] else [])
    + (if !(participantIds.Arr? && AllPositiveIntegers(participantIds.items))
       then [FieldError(ParticipantIdsField, GroupIdsInvalid)] else [])
    + CappedErrors(reason, 255, ReasonField, ReasonLength)
  }

  /** The ids an accepted family group carries, in order. */
  function GroupIds(items: seq<Value>): (ids: seq<Id>)
    requires AllPositiveIntegers(items)
    ensures |ids| == |items|
    ensures forall i :: 0 <= i < |items| ==> ids[i] as real == items[i].x
  {
    if items == [] then []
    else
      var x := items[0].x;
      assert x.Floor as real == x && x > 0.0;
      [x.Floor] + GroupIds(items[1..])
  }

  /** An accepted family group names at least two positive ids. */
  lemma AcceptedGroupHasIds(participantIds: Value, reason: Option<string>)
    requires FamilyGroupErrors(participantIds, reason) == []
    ensures participantIds.Arr? && AllPositiveIntegers(participantIds.items)
    ensures |GroupIds(participantIds.items)| >= 2
  {
  }

  // ---------------------------------------------------------------------
  // validateNotificationPreferences

  const SmsEnabledField: string := "smsEnabled"
  const NotifyOnAssignmentField: string := "notifyOnAssignment"
  const NotifyOnWishlistUpdateField: string := "notifyOnWishlistUpdate"
  const NotifyOnGameStartField: string := "notifyOnGameStart"
  const NotifyRemindersField: string := "notifyReminders"
  const SmsEnabledInvalid: string := "SMS enabled must be true or false"
  const NotifyOnAssignmentInvalid: string := "Notify on assignment must be true or false"
  const NotifyOnWishlistUpdateInvalid: string := "Notify on wishlist update must be true or false"
  const NotifyOnGameStartInvalid: string := "Notify on game start must be true or false"
  const NotifyRemindersInvalid: string := "Notify reminders must be true or false"

  /** `isBoolean()` in its default, strict mode: the value read as text is
      `true`, `false`, `1` or `0`. A JSON boolean or the numbers 0 and 1 read
      as one of those; `null` reads as the empty string. */
  predicate IsBooleanText(v: Value)
  {
    match v
    case Bool(_) => true
    case Num(x) => x == 0.0 || x == 1.0
    case Str(s) => s == "true" || s == "false" || s == "1" || s == "0"
    case _ => false
  }

  /** One `optional().isBoolean()` chain: only a missing field is skipped. */
  function FlagErrors(v: Value, field: string, message: string): (r: seq<FieldError>)
    ensures r == [] <==> v.Undefined? || IsBooleanText(v)
    ensures r != [] ==> r == [FieldError(field, message)]
  {
    if v.Undefined? || IsBooleanText(v) then [] else [FieldError(field, message)]
  }

  /** The five preference fields, checked in the order they are declared. */
  function PreferenceErrors(smsEnabled: Value, notifyOnAssignment: Value, notifyOnWishlistUpdate: Value,
                            notifyOnGameStart: Value, notifyReminders: Value): (r: seq<FieldError>)
    ensures r == [] <==>
      && (smsEnabled.Undefined? || IsBooleanText(smsEnabled))
      && (notifyOnAssignment.Undefined? || IsBooleanText(notifyOnAssignment))
      && (notifyOnWishlistUpdate.Undefined? || IsBooleanText(notifyOnWishlistUpdate))
      && (notifyOnGameStart.Undefined? || IsBooleanText(notifyOnGameStart))
      && (notifyReminders.Undefined? || IsBooleanText(notifyReminders))
    ensures |r| <= 5
  {
    FlagErrors(smsEnabled, SmsEnabledField, SmsEnabledInvalid)
    + FlagErrors(notifyOnAssignment, NotifyOnAssignmentField, NotifyOnAssignmentInvalid)
    + FlagErrors(notifyOnWishlistUpdate, NotifyOnWishlistUpdateField, NotifyOnWishlistUpdateInvalid)
    + FlagErrors(notifyOnGameStart, NotifyOnGameStartField, NotifyOnGameStartInvalid)
    + FlagErrors(notifyReminders, NotifyRemindersField, NotifyRemindersInvalid)
  }

  /** What an accepted flag means once it is stored by its truthiness: a
      boolean or a number keeps its meaning, but every accepted string,
      `"false"` and `"0"` included, is stored as on. */
  lemma AcceptedFlagTruthiness(v: Value)
    requires IsBooleanText(v)
    ensures Truthy(v) <==> v == Bool(true) || v == Num(1.0) || v.Str?
    ensures v.Str? ==> Truthy(v)
  {
  }

  // ---------------------------------------------------------------------
  // validateIdParam

  const IdField: string := "id"
  const IdInvalid: string := "ID must be a positive integer"

  /** A route parameter is always a string: an optional sign, digits, and a
      value of at least 1. */
  function IdParamErrors(id: string): (r: seq<FieldError>)
    ensures r == [] <==> IntegerText(id).Some? && IntegerText(id).value >= 1
    ensures r != [] ==> r == [FieldError(IdField, IdInvalid)]
  {
    if IsIntIn(Str(id), 1, None) then [] else [FieldError(IdField, IdInvalid)]
  }

  /** The id parameter accepts exactly the decimal forms of positive ids: the
      form `String(n)` of every id passes, and it denotes that id. */
  lemma IdParamAcceptsIds(n: int)
    ensures IdParamErrors(IntToString(n)) == [] <==> n >= 1
    ensures IntegerText(IntToString(n)) == Some(n)
  {
    IntegerTextOfIntToString(n);
  }
}
