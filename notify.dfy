/**
 * The PushPlus notification: `send_notification`'s token check and its reading of the reply,
 * and the choice in `main` of which message to send for the outcome of a run.
 */
module Notify {
  import opened Results
  import opened Text
  import opened Config

  /** A token a notification may be sent with: set, non-empty and not a sample value. */
  predicate TokenValid(token: Option<string>) {
    Present(token) && !IsPlaceholder(token.value)
  }

  /** The reply to the POST: no usable reply at all, or a JSON object with an optional `code`. */
  datatype Reply = RequestFailed | Replied(code: Option<int>)

  /** How `send_notification` ends. */
  datatype SendStatus =
    | Refused                         // invalid token: no request is made
    | Delivered                       // code 200
    | TokenRejected                   // code 903: the service does not know the token
    | ApiError(code: Option<int>)     // any other code, or none
    | NotDelivered                    // network, HTTP-status or decoding failure

  const SuccessCode: int := 200
  const InvalidTokenCode: int := 903

  /**
   * `send_notification`: refuses an invalid token before any request, otherwise classifies the
   * reply's code.
   */
  function Send(token: Option<string>, reply: Reply): (r: SendStatus)
    ensures r == Refused <==> !TokenValid(token)
    ensures r == Delivered <==> TokenValid(token) && reply == Replied(Some(SuccessCode))
    ensures r == TokenRejected <==> TokenValid(token) && reply == Replied(Some(InvalidTokenCode))
    ensures r.ApiError? <==>
      TokenValid(token) && reply.Replied? && reply.code != Some(SuccessCode) && reply.code != Some(InvalidTokenCode)
    ensures r == NotDelivered <==> TokenValid(token) && reply == RequestFailed
  {
    if !TokenValid(token) then Refused
    else
      match reply
      case RequestFailed => NotDelivered
      case Replied(code) =>
        if code == Some(SuccessCode) then Delivered
        else if code == Some(InvalidTokenCode) then TokenRejected
        else ApiError(code)
  }

  /** The two PushPlus templates the monitor uses. */
  datatype Template = Markdown | Html

  /** A notification as posted: title, body and template. */
  datatype Message = Message(title: string, content: string, template: Template)

  /**
   * How the run went: the page could not be fetched (`None` or empty HTML), or it was fetched
   * and extraction gave a price or none.
   */
  datatype RunOutcome = FetchFailed | Fetched(price: Option<real>)

  const TitlePrefix: string := "深航 "
  const PriceSuffix: string := " 价格更新"
  const QueryFailedSuffix: string := " 查询失败"
  const FetchFailedSuffix: string := " 抓取失败"

  function PriceTitle(flight: string): string { TitlePrefix + flight + PriceSuffix }
  function QueryFailedTitle(flight: string): string { TitlePrefix + flight + QueryFailedSuffix }
  function FetchFailedTitle(flight: string): string { TitlePrefix + flight + FetchFailedSuffix }

  const ScreenshotPath: string := "debug_screenshot.png"
  const NoticeTail: string := "**请查看截图: " + ScreenshotPath + "**"

  /** The notice about the screenshot, added to failure bodies only when the run is local. */
  const ScreenshotNotice: string := "\n\n" + NoticeTail

  function Notice(inCi: bool): string {
    if inCi then "" else ScreenshotNotice
  }

  /** The failure bodies before the screenshot notice, with their line breaks as written. */
  function QueryFailedText(flight: string, url: string): string {
    "未能成功查询到航班 " + flight + " 的价格信息。\n查询页面：" + url + "\n请检查脚本日志。"
  }

  function FetchFailedText(url: string): string {
    "无法获取目标页面内容(Playwright)。\n查询页面：" + url + "\n请检查环境/浏览器/网络。"
  }

  /**
   * The success body. `shown` is the price as `f"{price:.2f}"` renders it and `now` the time as
   * the log formatter renders it; both are inputs.
   */
  function PriceText(shown: string, now: string, url: string): string {
    "当前查询到的最低价格为：**¥" + shown + "**\n\n当前时间：" + now + "\n\n[点击查看详情](" + url + ")"
  }

  /**
   * The message `main` composes for the outcome: the price in Markdown, or one of the two
   * failure texts with the notice appended and `\n` turned into `<br>` for the HTML template.
   */
  function Compose(flight: string, url: string, inCi: bool, outcome: RunOutcome,
                   render: real -> string, now: string): (m: Message)
    ensures m.template == Markdown <==> outcome.Fetched? && outcome.price.Some?
    ensures m.template == Html ==> '\n' !in m.content
  {
    match outcome
    case Fetched(Some(price)) =>
      Message(PriceTitle(flight), PriceText(render(price), now, url), Markdown)
    case Fetched(None) =>
      Message(QueryFailedTitle(flight), NewlinesToBreaks(QueryFailedText(flight, url) + Notice(inCi)), Html)
    case FetchFailed =>
      Message(FetchFailedTitle(flight), NewlinesToBreaks(FetchFailedText(url) + Notice(inCi)), Html)
  }

  /** `main`'s branch: the message goes out only when the token is valid; at most one per run. */
  function Decide(token: Option<string>, flight: string, url: string, inCi: bool, outcome: RunOutcome,
                  render: real -> string, now: string): (r: Option<Message>)
    ensures r.Some? <==> TokenValid(token)
  {
    if TokenValid(token) then Some(Compose(flight, url, inCi, outcome, render, now)) else None
  }

  /** Each outcome has its own title, and every title names the flight. */
  lemma TitlesDistinguishOutcomes(flight: string)
    ensures PriceTitle(flight) != QueryFailedTitle(flight)
    ensures PriceTitle(flight) != FetchFailedTitle(flight)
    ensures QueryFailedTitle(flight) != FetchFailedTitle(flight)
    ensures PriceTitle(flight)[..|TitlePrefix + flight|] == TitlePrefix + flight
    ensures QueryFailedTitle(flight)[..|TitlePrefix + flight|] == TitlePrefix + flight
    ensures FetchFailedTitle(flight)[..|TitlePrefix + flight|] == TitlePrefix + flight
  {
    var n := |TitlePrefix + flight|;
    assert PriceTitle(flight)[n + 1] == '价';
    assert QueryFailedTitle(flight)[n + 1] == '查';
    assert FetchFailedTitle(flight)[n + 1] == '抓';
  }

  /** The title tells which of the three outcomes the run had. */
  lemma ComposeTitle(flight: string, url: string, inCi: bool, outcome: RunOutcome, render: real -> string, now: string)
    ensures var m := Compose(flight, url, inCi, outcome, render, now);
      && (m.title == PriceTitle(flight) <==> outcome.Fetched? && outcome.price.Some?)
      && (m.title == QueryFailedTitle(flight) <==> outcome == Fetched(None))
      && (m.title == FetchFailedTitle(flight) <==> outcome == FetchFailed)
  {
    TitlesDistinguishOutcomes(flight);
  }

  /** The screenshot notice, as it appears in an HTML body. */
  const ScreenshotNoticeHtml: string := "<br>" + "<br>" + NoticeTail

  /**
   * A failure body is its text with line breaks in HTML, followed by the screenshot notice
   * exactly when the run is local.
   */
  lemma FailureBodyNotice(flight: string, url: string, inCi: bool, outcome: RunOutcome, render: real -> string, now: string)
    requires !(outcome.Fetched? && outcome.price.Some?)
    ensures var m := Compose(flight, url, inCi, outcome, render, now);
      var text := if outcome == FetchFailed then FetchFailedText(url) else QueryFailedText(flight, url);
      m.content == NewlinesToBreaks(text) + (if inCi then "" else ScreenshotNoticeHtml)
  {
    var text := if outcome == FetchFailed then FetchFailedText(url) else QueryFailedText(flight, url);
    NewlinesToBreaksAppend(text, Notice(inCi));
    NoticeAsHtml();
  }

  lemma NoticeAsHtml()
    ensures NewlinesToBreaks(ScreenshotNotice) == ScreenshotNoticeHtml
  {
    var br := NewlinesToBreaks("\n");
    assert br == "<br>" by {
      assert "\n"[1..] == [];
    }
    NewlinesToBreaksAppend("\n", "\n");
    NewlinesToBreaksAppend("\n\n", NoticeTail);
    NoticeTailSingleLine();
    NewlinesToBreaksNoop(NoticeTail);
  }

  lemma NoticeTailSingleLine()
    ensures '\n' !in NoticeTail
  {
    assert '\n' !in "**请查看截图: ";
    assert '\n' !in ScreenshotPath;
  }
}
