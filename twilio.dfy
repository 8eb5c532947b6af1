/** The gateway side of sending an SMS: the global switch, the allowed-hours
    window, the shape of the send outcome, the delivery log and the status
    webhook. The carrier's API and the phone-number library are parameters. */
module TwilioService {
  import opened Common
  import opened Schema

  const DisabledSid: string := "SMS_DISABLED"
  const SentStatus: string := "sent"
  const FailedStatus: string := "failed"
  const DeliveredStatus: string := "delivered"
  const FirstAllowedHour: int := 9
  const EndOfAllowedHours: int := 21

  const OutsideHoursError: string := "SMS can only be sent between 9 AM and 9 PM"
  const NoClientError: string := "Twilio client not initialized"
  const InvalidPhoneError: string := "Invalid phone number format"
  const NoSenderError: string := "TWILIO_PHONE_NUMBER not configured"

  /** What the phone-number library makes of a number: its E.164 form when it
      parses as a valid US number, `None` when it does not. */
  type PhoneFormatter = string -> Option<string>

  /** What the carrier's `messages.create` does with one request. */
  datatype GatewayOutcome = Accepted(sid: string, status: string) | Threw(message: string)

  /** The object `sendSMS` resolves to. */
  datatype TwilioResponse = TwilioResponse(
    success: bool,
    sid: Option<string>,
    status: Option<string>,
    error: Option<string>)

  /** `SMS_ENABLED === 'true'` */
  predicate IsSmsEnabled(env: Env)
  {
    env.smsEnabled == "true"
  }

  /** `isWithinAllowedHours` for the local hour of the clock. */
  predicate IsWithinAllowedHours(hour: int)
  {
    FirstAllowedHour <= hour < EndOfAllowedHours
  }

  /** The client exists once both credentials are configured. */
  predicate HasClient(env: Env)
  {
    env.twilioAccountSid != "" && env.twilioAuthToken != ""
  }

  /** `formatPhoneNumber`: the library's E.164 form, or the error it throws. */
  function FormatPhoneNumber(format: PhoneFormatter, phone: string): (r: Result<string>)
    ensures r.Ok? <==> format(phone).Some?
    ensures r.Ok? ==> r.value == format(phone).value
    ensures r.Err? ==> r.error == InvalidPhoneError
  {
    match format(phone)
    case None => Err(InvalidPhoneError)
    case Some(f) => Ok(f)
  }

  /** `extractLastFour`: `slice(-4)` of the formatted number, which is the
      whole string when it is shorter than four characters. */
  function ExtractLastFour(format: PhoneFormatter, phone: string): (r: Result<string>)
    ensures r.Ok? <==> format(phone).Some?
    ensures r.Ok? ==>
      var f := format(phone).value;
      && |r.value| == (if |f| < 4 then |f| else 4)
      && f == f[..|f| - |r.value|] + r.value
  {
    match FormatPhoneNumber(format, phone)
    case Err(e) => Err(e)
    case Ok(f) => Ok(if |f| >= 4 then f[|f| - 4..] else f)
  }

  const DisabledResponse: TwilioResponse := TwilioResponse(true, Some(DisabledSid), Some(SentStatus), None)

  function Failure(error: string): TwilioResponse
  {
    TwilioResponse(false, None, None, Some(error))
  }

  /** `sendSMS` at local hour `hour`. Every error is caught and returned as a
      failure, so the send never throws. */
  function SendSms(env: Env, hour: int, phone: string, format: PhoneFormatter, gateway: GatewayOutcome): TwilioResponse
  {
    if !IsSmsEnabled(env) then DisabledResponse
    else if !IsWithinAllowedHours(hour) then Failure(OutsideHoursError)
    else if !HasClient(env) then Failure(NoClientError)
    else if format(phone).None? then Failure(InvalidPhoneError)
    else if env.twilioPhoneNumber == "" then Failure(NoSenderError)
    else match gateway
      case Accepted(sid, status) => TwilioResponse(true, Some(sid), Some(status), None)
      case Threw(message) => Failure(message)
  }

  /** The send succeeds exactly when SMS is switched off (and nothing is
      sent), or when every precondition holds and the carrier accepts it;
      a failure always carries an error and never a sid. */
  lemma SendSmsOutcome(env: Env, hour: int, phone: string, format: PhoneFormatter, gateway: GatewayOutcome)
    ensures var r := SendSms(env, hour, phone, format, gateway);
      && (!IsSmsEnabled(env) ==> r == DisabledResponse)
      && (IsSmsEnabled(env) && !IsWithinAllowedHours(hour) ==> r == Failure(OutsideHoursError))
      && (r.success <==>
            !IsSmsEnabled(env)
            || (IsWithinAllowedHours(hour) && HasClient(env) && format(phone).Some?
                && env.twilioPhoneNumber != "" && gateway.Accepted?))
      && (!r.success ==> r.error.Some? && r.sid.None?)
      && (r.success && IsSmsEnabled(env) ==> r.sid == Some(gateway.sid) && r.status == Some(gateway.status))
  {
  }

  // ---------------------------------------------------------------------
  // logSMS

  /** The row `logSMS` inserts: `sent` for a success, `failed` otherwise; a
      missing or empty sid or error is stored as NULL. */
  function LogRow(participant: Id, phone: string, kind: string, body: string, response: TwilioResponse): (e: LogEntry)
    ensures e.status == SentStatus <==> response.success
    ensures e.status == FailedStatus <==> !response.success
    ensures e.twilioSid.Some? <==> response.sid.Some? && response.sid.value != ""
    ensures e.errorMessage.Some? <==> response.error.Some? && response.error.value != ""
    ensures e.participant == participant && e.phoneNumber == phone && e.messageType == kind && e.body == body
    ensures e.deliveredAt.None?
  {
    LogEntry(participant, phone, kind, body, OrNull(response.sid),
      if response.success then SentStatus else FailedStatus, OrNull(response.error), None)
  }

  /** `logSMS`: appends one row. */
  method LogSms(db: Database, participant: Id, phone: string, kind: string, body: string, response: TwilioResponse)
    returns (ok: bool)
    modifies db`logs
    ensures old(db.Valid()) ==> db.Valid()
    ensures db.logs == old(db.logs) + [LogRow(participant, phone, kind, body, response)]
    ensures ok
  {
    db.logs := db.logs + [LogRow(participant, phone, kind, body, response)];
    ok := true;
  }

  // ---------------------------------------------------------------------
  // updateSMSStatus

  function UpdateRow(e: LogEntry, sid: string, status: string, error: Option<string>, now: Time): LogEntry
  {
    if e.twilioSid == Some(sid) then
      e.(status := status, errorMessage := error,
         deliveredAt := if status == DeliveredStatus then Some(now) else e.deliveredAt)
    else e
  }

  /** The webhook's UPDATE: rows carrying that sid take the new status and
      error; `delivered_at` is stamped only for `delivered`. */
  function UpdateStatus(logs: seq<LogEntry>, sid: string, status: string, error: Option<string>, now: Time): (r: seq<LogEntry>)
    ensures |r| == |logs|
    ensures forall i :: 0 <= i < |logs| && logs[i].twilioSid != Some(sid) ==> r[i] == logs[i]
    ensures forall i :: 0 <= i < |logs| && logs[i].twilioSid == Some(sid) ==>
      (&& r[i].status == status && r[i].errorMessage == error
       && r[i].twilioSid == logs[i].twilioSid && r[i].body == logs[i].body
       && r[i].participant == logs[i].participant && r[i].messageType == logs[i].messageType)
    ensures forall i :: 0 <= i < |logs| ==>
      (r[i].deliveredAt == if logs[i].twilioSid == Some(sid) && status == DeliveredStatus then Some(now) else logs[i].deliveredAt)
  {
    seq(|logs|, i requires 0 <= i < |logs| => UpdateRow(logs[i], sid, status, error, now))
  }

  /** A callback for a sid nobody logged changes nothing. */
  lemma UnknownSidChangesNothing(logs: seq<LogEntry>, sid: string, status: string, error: Option<string>, now: Time)
    requires forall e :: e in logs ==> e.twilioSid != Some(sid)
    ensures UpdateStatus(logs, sid, status, error, now) == logs
  {
    var r := UpdateStatus(logs, sid, status, error, now);
    forall i | 0 <= i < |logs| ensures r[i] == logs[i] {
      assert logs[i] in logs;
    }
  }

  /** Replaying a callback gives the same statuses and errors as the first
      delivery; only a `delivered` replay moves `delivered_at`, to the later
      clock. A replay of any other status changes nothing at all. */
  lemma ReplayedCallback(logs: seq<LogEntry>, sid: string, status: string, error: Option<string>, t1: Time, t2: Time)
    ensures var once := UpdateStatus(logs, sid, status, error, t1);
      var twice := UpdateStatus(once, sid, status, error, t2);
      && twice == UpdateStatus(logs, sid, status, error, t2)
      && (forall i :: 0 <= i < |logs| ==> twice[i].status == once[i].status && twice[i].errorMessage == once[i].errorMessage)
      && (status != DeliveredStatus ==> twice == once)
  {
    var once := UpdateStatus(logs, sid, status, error, t1);
    var twice := UpdateStatus(once, sid, status, error, t2);
    assert forall i :: 0 <= i < |logs| ==> twice[i] == UpdateStatus(logs, sid, status, error, t2)[i];
  }

  /** `updateSMSStatus`, called by the status webhook. */
  method UpdateSmsStatus(db: Database, sid: string, status: string, error: Option<string>, now: Time) returns (ok: bool)
    modifies db`logs
    ensures old(db.Valid()) ==> db.Valid()
    ensures db.logs == UpdateStatus(old(db.logs), sid, status, error, now)
    ensures ok
  {
    db.logs := UpdateStatus(db.logs, sid, status, error, now);
    ok := true;
  }
}
