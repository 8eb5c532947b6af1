/** The SMS texts: one builder per message type, the type dispatch with its
    required fields and defaults, and the 160-unit segment count. */
module SmsTemplates {
  import opened Common
  import opened Schema

  const DefaultAppUrl: string := "http://localhost:3000"
  const DefaultDaysRemaining: int := 7
  const DefaultTestName: string := "there"
  const SegmentSize: nat := 160

  /** The `data` object of `getMessage`; a field the caller leaves out is
      `None`. */
  datatype TemplateData = TemplateData(
    appUrl: Option<string>,
    recipientName: Option<string>,
    daysRemaining: Option<int>,
    firstName: Option<string>)

  const NoData: TemplateData := TemplateData(None, None, None, None)

  /** `data.appUrl || process.env.APP_URL || 'http://localhost:3000'` */
  function AppUrl(data: TemplateData, env: Env): (url: string)
    ensures url != ""
    ensures data.appUrl.Some? && data.appUrl.value != "" ==> url == data.appUrl.value
    ensures (data.appUrl.None? || data.appUrl.value == "") && env.appUrl != "" ==> url == env.appUrl
    ensures (data.appUrl.None? || data.appUrl.value == "") && env.appUrl == "" ==> url == DefaultAppUrl
  {
    OrDefault(data.appUrl, if env.appUrl != "" then env.appUrl else DefaultAppUrl)
  }

  // ---------------------------------------------------------------------
  // The builders

  function GameStartMessage(appUrl: string): (m: string)
    ensures Contains(m, appUrl)
  {
    var pre := "\U{1F385} Ho Ho Ho! Secret Santa is ready!\n\nLogin at ";
    var post := " with your name and last 4 digits of this number to draw your person.\n\n"
      + "Don't forget to add your wish list! \U{1F381}";
    ContainsMiddle(pre, appUrl, post);
    pre + appUrl + post
  }

  function AssignmentMessage(recipientName: string, appUrl: string): (m: string)
    ensures Contains(m, recipientName)
    ensures Contains(m, appUrl + "/recipient-wishlist.html")
  {
    var pre := "\U{1F384} You've drawn your Secret Santa!\n\nYou're shopping for: ";
    var mid := "\n\nView their wish list at ";
    var link := appUrl + "/recipient-wishlist.html";
    var post := "\n\nKeep it secret! \U{1F92B}";
    ContainsParts(pre, recipientName, mid, link, post, "");
    assert pre + recipientName + mid + link + post + "" == pre + recipientName + mid + link + post;
    pre + recipientName + mid + link + post
  }

  function WishListUpdateMessage(recipientName: string, appUrl: string): (m: string)
    ensures Contains(m, recipientName)
    ensures Contains(m, appUrl + "/recipient-wishlist.html")
  {
    var pre := "\U{1F381} Good news!\n\n";
    var mid := " just updated their wish list!\n\nCheck it out: ";
    var link := appUrl + "/recipient-wishlist.html";
    ContainsParts(pre, recipientName, mid, link, "", "");
    assert pre + recipientName + mid + link + "" + "" == pre + recipientName + mid + link;
    pre + recipientName + mid + link
  }

  function WishListReminderMessage(appUrl: string): (m: string)
    ensures Contains(m, appUrl + "/wishlist.html")
  {
    var pre := "\U{1F385} Reminder: Your Secret Santa is waiting!\n\n"
      + "Help them pick the perfect gift by adding to your wish list at ";
    var link := appUrl + "/wishlist.html";
    ContainsSuffix(pre, link);
    pre + link
  }

  /** "day" for exactly one day, "days" otherwise. */
  function DayWord(days: int): (w: string)
    ensures w == "day" || w == "days"
    ensures w == "day" <==> days == 1
  {
    if days == 1 then "day" else "days"
  }

  /** The sentence that counts the days left. */
  function DaysLeft(daysRemaining: int): string
  {
    "Secret Santa exchange is in " + IntToString(daysRemaining) + " " + DayWord(daysRemaining) + "!"
  }

  /** The sentence that names the recipient. */
  function ShopFor(recipientName: string): string
  {
    "Don't forget to shop for " + recipientName + "!"
  }

  function ShoppingReminderMessage(recipientName: string, daysRemaining: int, appUrl: string): (m: string)
    ensures Contains(m, DaysLeft(daysRemaining))
    ensures Contains(m, ShopFor(recipientName))
    ensures Contains(m, appUrl + "/recipient-wishlist.html")
  {
    var pre := "\U{23F0} Just a reminder!\n\n";
    var mid := "\n\nTheir wish list: ";
    var link := appUrl + "/recipient-wishlist.html";
    ContainsParts(pre, DaysLeft(daysRemaining), "\n\n", ShopFor(recipientName), mid, link);
    pre + DaysLeft(daysRemaining) + "\n\n" + ShopFor(recipientName) + mid + link
  }

  function ExchangeDayMessage(recipientName: string): (m: string)
    ensures Contains(m, "You're giving to: " + recipientName)
  {
    var pre := "\U{1F389} Today's the day!\n\nSecret Santa gift exchange is TODAY!\n\n";
    var giving := "You're giving to: " + recipientName;
    var post := "\n\nHave fun! \U{1F385}\U{1F381}";
    ContainsMiddle(pre, giving, post);
    pre + giving + post
  }

  function TestMessage(firstName: string): (m: string)
    ensures Contains(m, "Hi " + firstName + "!")
  {
    var pre := "\U{1F9EA} Test Message\n\n";
    var hi := "Hi " + firstName + "!";
    var post := " This is a test message from your Secret Santa app.\n\n"
      + "If you received this, SMS notifications are working! \U{2705}";
    ContainsMiddle(pre, hi, post);
    pre + hi + post
  }

  // ---------------------------------------------------------------------
  // getMessage

  function RequiredName(kind: string): string
  {
    "recipientName is required for " + kind + " message"
  }

  /** The recipient name when it is present and not empty. */
  predicate HasName(data: TemplateData)
  {
    data.recipientName.Some? && data.recipientName.value != ""
  }

  /** `getMessage(type, data)`: a thrown error is `Err`. */
  function GetMessage(kind: string, data: TemplateData, env: Env): (r: Result<string>)
    ensures r.Err? <==>
      (kind in {"assignment", "wishlist_update", "shopping_reminder", "exchange_day"} && !HasName(data))
      || kind !in {"game_start", "assignment", "wishlist_update", "wishlist_reminder", "shopping_reminder", "exchange_day", "test"}
  {
    var url := AppUrl(data, env);
    match kind
    case "game_start" => Ok(GameStartMessage(url))
    case "assignment" =>
      if !HasName(data) then Err(RequiredName(kind))
      else Ok(AssignmentMessage(data.recipientName.value, url))
    case "wishlist_update" =>
      if !HasName(data) then Err(RequiredName(kind))
      else Ok(WishListUpdateMessage(data.recipientName.value, url))
    case "wishlist_reminder" => Ok(WishListReminderMessage(url))
    case "shopping_reminder" =>
      if !HasName(data) then Err(RequiredName(kind))
      else
        var days := if data.daysRemaining.Some? && data.daysRemaining.value != 0
          then data.daysRemaining.value else DefaultDaysRemaining;
        Ok(ShoppingReminderMessage(data.recipientName.value, days, url))
    case "exchange_day" =>
      if !HasName(data) then Err(RequiredName(kind))
      else Ok(ExchangeDayMessage(data.recipientName.value))
    case "test" => Ok(TestMessage(OrDefault(data.firstName, DefaultTestName)))
    case _ => Err("Unknown message type: " + kind)
  }

  /** The error cases name the problem: an unknown type is reported with the
      type, and a missing recipient name with the type that needs it. */
  lemma GetMessageErrors(kind: string, data: TemplateData, env: Env)
    ensures kind !in {"game_start", "assignment", "wishlist_update", "wishlist_reminder", "shopping_reminder", "exchange_day", "test"}
      ==> GetMessage(kind, data, env) == Err("Unknown message type: " + kind)
    ensures kind in {"assignment", "wishlist_update", "shopping_reminder", "exchange_day"} && !HasName(data)
      ==> GetMessage(kind, data, env) == Err(RequiredName(kind))
  {
  }

  /** Every message that names somebody embeds the name it was given, and
      all of them but the exchange-day text link to the recipient's wish-list
      page under the application URL. */
  lemma GetMessageEmbedsName(kind: string, data: TemplateData, env: Env)
    requires kind in {"assignment", "wishlist_update", "shopping_reminder", "exchange_day"}
    requires GetMessage(kind, data, env).Ok?
    ensures HasName(data) && Contains(GetMessage(kind, data, env).value, data.recipientName.value)
    ensures kind != "exchange_day" ==>
      Contains(GetMessage(kind, data, env).value, AppUrl(data, env) + "/recipient-wishlist.html")
  {
    var name := data.recipientName.value;
    var m := GetMessage(kind, data, env).value;
    if kind == "shopping_reminder" {
      ContainsWithin(m, "Don't forget to shop for ", name, "!");
    } else if kind == "exchange_day" {
      assert "You're giving to: " + name == "You're giving to: " + name + "";
      ContainsWithin(m, "You're giving to: ", name, "");
    }
  }

  /** The shopping reminder counts the days it was given, 7 when there
      were none (or zero), and says "day" for exactly one. */
  lemma ShoppingReminderDays(name: string, days: Option<int>, env: Env)
    requires name != ""
    ensures var d := if days.Some? && days.value != 0 then days.value else DefaultDaysRemaining;
      && Contains(GetMessage("shopping_reminder", TemplateData(None, Some(name), days, None), env).value, DaysLeft(d))
      && GetMessage("shopping_reminder", TemplateData(None, Some(name), days, None), env)
           == Ok(ShoppingReminderMessage(name, d, AppUrl(NoData, env)))
      && (days.None? ==> d == 7)
      && (DayWord(d) == "day" <==> days == Some(1))
  {
  }

  /** The test message greets the given first name, or "there". */
  lemma TestMessageName(data: TemplateData, env: Env)
    ensures GetMessage("test", data, env).Ok?
    ensures data.firstName.Some? && data.firstName.value != "" ==>
      Contains(GetMessage("test", data, env).value, "Hi " + data.firstName.value + "!")
    ensures (data.firstName.None? || data.firstName.value == "") ==>
      Contains(GetMessage("test", data, env).value, "Hi there!")
  {
    if data.firstName.None? || data.firstName.value == "" {
      assert "Hi " + DefaultTestName + "!" == "Hi there!";
    }
  }

  /** The test text for a known first name: the name, or "there" when it is
      empty. */
  lemma TestGreets(firstName: string, env: Env)
    ensures GetMessage("test", TemplateData(None, None, None, Some(firstName)), env)
      == Ok(TestMessage(if firstName == "" then DefaultTestName else firstName))
  {
  }

  // ---------------------------------------------------------------------
  // validateMessageLength

  /** The length JavaScript reports: UTF-16 code units, two for a character
      outside the Basic Multilingual Plane (most emoji). */
  function Utf16Length(s: string): (n: nat)
    ensures |s| <= n <= 2 * |s|
    decreases |s|
  {
    if s == [] then 0
    else (if s[0] as int >= 0x1_0000 then 2 else 1) + Utf16Length(s[1..])
  }

  lemma {:induction false} Utf16LengthConcat(a: string, b: string)
    ensures Utf16Length(a + b) == Utf16Length(a) + Utf16Length(b)
    decreases |a|
  {
    if a == [] {
      assert a + b == b;
    } else {
      assert (a + b)[0] == a[0];
      assert (a + b)[1..] == a[1..] + b;
      Utf16LengthConcat(a[1..], b);
    }
  }

  datatype LengthInfo = LengthInfo(length: nat, segments: nat, isSingleSegment: bool)

  /** `segments` is the fewest 160-unit segments that hold the message. */
  function ValidateMessageLength(message: string): (r: LengthInfo)
    ensures r.length == Utf16Length(message)
    ensures r.length <= r.segments * SegmentSize
    ensures r.segments == 0 || (r.segments - 1) * SegmentSize < r.length
    ensures r.isSingleSegment <==> r.length <= SegmentSize
    ensures r.segments <= 1 <==> r.isSingleSegment
  {
    var n := Utf16Length(message);
    LengthInfo(n, (n + SegmentSize - 1) / SegmentSize, n <= SegmentSize)
  }

  /** A message of more than 160 units takes several segments, and
      appending text never takes fewer. */
  lemma SegmentsGrow(a: string, b: string)
    ensures ValidateMessageLength(a).segments <= ValidateMessageLength(a + b).segments
  {
    Utf16LengthConcat(a, b);
  }
}
