/**
 * The download form (src/components/DownloadForm.tsx): it recognises the site
 * from the URL's hostname, falls back to the site chosen elsewhere, offers a
 * chapter range for ColaManga only, and posts `{url, site, chapterStart?,
 * chapterEnd?}` to `/api/scrape`. The form's state hooks are the fields of
 * `Form`; `handleSubmit` awaits the server, so it is split at that point into
 * `Submit` and `Finish`.
 */
module DownloadForm {
  import opened Options
  import opened Strings
  import opened Naming
  import opened Browser
  import opened Server

  /** Hostname substrings and the site each one means, tested in this order. */
  const SiteRules: seq<(string, string)> := [
    ("colamanga.com", "ColaManga"),
    ("asuracomic.net", "AsuraScans"),
    ("asurascans.com", "AsuraScans"),
    ("nhentai.net", "NHentai"),
    ("hentai2read.com", "Hentai2Read"),
    ("hitomi.la", "Hitomi"),
    ("erosscans.com", "ErosScans")
  ]

  /** The index of the first rule whose substring occurs in `domain`. */
  function FirstMatch(domain: string, rules: seq<(string, string)>): (r: Option<nat>)
    ensures r.Some? ==> r.value < |rules| && Contains(domain, rules[r.value].0)
    ensures r.Some? ==> forall j :: 0 <= j < r.value ==> !Contains(domain, rules[j].0)
    ensures r.None? ==> forall j :: 0 <= j < |rules| ==> !Contains(domain, rules[j].0)
    decreases |rules|
  {
    if rules == [] then None
    else if Contains(domain, rules[0].0) then Some(0)
    else
      match FirstMatch(domain, rules[1..])
      case None => None
      case Some(i) => Some(i + 1)
  }

  /** `detectSiteFromUrl`: the site of the first rule the lowercased hostname matches; `None` when nothing matches or the URL does not parse. */
  function DetectSite(parse: UrlParser, url: string): (r: Option<string>)
    ensures parse(url).None? ==> r == None
  {
    match parse(url)
    case None => None
    case Some(parts) =>
      match FirstMatch(Lower(parts.hostname), SiteRules)
      case None => None
      case Some(i) => Some(SiteRules[i].1)
  }

  /** A parsed hostname is unrecognised only when it contains none of the rules' substrings. */
  lemma DetectNone(parse: UrlParser, url: string)
    requires parse(url).Some? && DetectSite(parse, url).None?
    ensures forall j :: 0 <= j < |SiteRules| ==> !Contains(Lower(parse(url).value.hostname), SiteRules[j].0)
  {
  }

  /** The first rule that matches wins, whatever later rules also match. */
  lemma DetectFirstRule(parse: UrlParser, url: string, i: nat)
    requires parse(url).Some? && i < |SiteRules|
    requires Contains(Lower(parse(url).value.hostname), SiteRules[i].0)
    requires forall j :: 0 <= j < i ==> !Contains(Lower(parse(url).value.hostname), SiteRules[j].0)
    ensures DetectSite(parse, url) == Some(SiteRules[i].1)
  {
    var m := FirstMatch(Lower(parse(url).value.hostname), SiteRules);
    assert m.Some?;
  }

  /** Every site name detection can produce, lowercased, is a key of the second server registry. */
  lemma DetectedNamesAreKeys(parse: UrlParser, url: string)
    ensures DetectSite(parse, url).Some? ==> Lower(DetectSite(parse, url).value) in Keys(SecondRegistry)
  {
    if parse(url).Some? {
      var m := FirstMatch(Lower(parse(url).value.hostname), SiteRules);
      if m.Some? {
        RuleNameIsKey(m.value);
      }
    }
  }

  /** The site name of rule `i`, lowercased, is a registry key. */
  lemma RuleNameIsKey(i: nat)
    requires i < |SiteRules|
    ensures Lower(SiteRules[i].1) in Keys(SecondRegistry)
  {
    var keys := Keys(SecondRegistry);
    if i == 0 {
      assert Lower("ColaManga") == "colamanga" == keys[2];
    } else if i <= 2 {
      assert Lower("AsuraScans") == "asurascans" == keys[1];
    } else if i == 3 {
      assert Lower("NHentai") == "nhentai" == keys[3];
    } else if i == 4 {
      assert Lower("Hentai2Read") == "hentai2read" == keys[4];
    } else if i == 5 {
      assert Lower("Hitomi") == "hitomi" == keys[5];
    } else {
      assert Lower("ErosScans") == "erosscans" == keys[0];
    }
  }

  /** A string is truthy. */
  predicate Truthy(s: Option<string>) {
    s.Some? && s.value != ""
  }

  /** `url ? detectSiteFromUrl(url) : null`. */
  function DetectedSite(parse: UrlParser, url: string): Option<string> {
    if url != "" then DetectSite(parse, url) else None
  }

  /** `detectedSite || selectedSite`. */
  function ActiveSite(detected: Option<string>, selected: Option<string>): (r: Option<string>)
    ensures Truthy(detected) ==> r == detected
    ensures !Truthy(detected) ==> r == selected
    ensures Truthy(r) <==> Truthy(detected) || Truthy(selected)
  {
    if Truthy(detected) then detected else selected
  }

  /** A chapter range is offered exactly for ColaManga. */
  predicate SupportsChapterRange(active: Option<string>) {
    active == Some("ColaManga")
  }

  /** The one site offered a chapter range is a `null` placeholder on the server, so such a request is always answered 400. */
  lemma ChapterRangeOnlyForPlaceholder(active: Option<string>)
    requires SupportsChapterRange(active)
    ensures Lookup(SecondRegistry, Lower(active.value)) == None
  {
    assert Lower("ColaManga") == "colamanga";
    RegistryFacts();
  }

  /** The leading decimal digits of `s`. */
  function DigitPrefix(s: string): (r: string)
    ensures AllDigits(r) && |r| <= |s| && r == s[..|r|]
    ensures |r| < |s| ==> !IsDigit(s[|r|])
    decreases |s|
  {
    if s != [] && IsDigit(s[0]) then [s[0]] + DigitPrefix(s[1..]) else []
  }

  /**
   * `parseInt(s)` in base 10: leading whitespace, an optional sign, then the
   * longest run of digits; `None` (NaN) when there are no digits.
   */
  function ParseInt(s: string): (r: Option<int>)
  {
    var t := TrimStart(s);
    if t != [] && t[0] == '-' then
      match ParseDigits(t[1..]) case None => None case Some(v) => Some(-(v as int))
    else if t != [] && t[0] == '+' then
      match ParseDigits(t[1..]) case None => None case Some(v) => Some(v)
    else
      match ParseDigits(t) case None => None case Some(v) => Some(v)
  }

  /** The value of the leading digits of `s`, if there are any. */
  function ParseDigits(s: string): (r: Option<nat>)
    ensures r.None? <==> s == [] || !IsDigit(s[0])
  {
    var d := DigitPrefix(s);
    if d == [] then None else Some(DigitsValue(d))
  }

  /** A run of digits followed by a non-digit reads as the value of the digits. */
  lemma ParseDigitsOf(d: string, rest: string)
    requires d != [] && AllDigits(d) && (rest == [] || !IsDigit(rest[0]))
    ensures ParseDigits(d + rest) == Some(DigitsValue(d))
  {
    DigitPrefixOf(d, rest);
  }

  /**
   * Reading back a rendered number, with anything after it that is not a
   * digit (such as `.5`), gives the number.
   */
  lemma ParseIntOfNat(n: nat, rest: string)
    requires rest == [] || !IsDigit(rest[0])
    ensures ParseInt(NatToString(n) + rest) == Some(n)
  {
    var d := NatToString(n);
    NatToStringValue(n);
    ParseDigitsOf(d, rest);
    var s := d + rest;
    assert s[0] == d[0];
    ParseIntUnsigned(s);
  }

  /** Text that starts with a digit has no leading space or sign to skip. */
  lemma ParseIntUnsigned(s: string)
    requires s != [] && IsDigit(s[0])
    ensures ParseInt(s) == ParseDigits(s)
  {
    assert !IsSpace(s[0]);
    assert TrimStart(s) == s;
  }

  /** Behind a minus sign the same text reads as the negated number. */
  lemma ParseIntOfNegated(n: nat, rest: string)
    requires rest == [] || !IsDigit(rest[0])
    ensures ParseInt("-" + (NatToString(n) + rest)) == Some(-(n as int))
  {
    var d := NatToString(n);
    NatToStringValue(n);
    ParseDigitsOf(d, rest);
    ParseIntNegative(d + rest);
  }

  /** Text that starts with `-` has no leading space to skip and reads as a negated digit run. */
  lemma ParseIntNegative(t: string)
    ensures ParseInt("-" + t) == match ParseDigits(t) case None => None case Some(v) => Some(-(v as int))
  {
    var m := "-" + t;
    assert m[0] == '-' && !IsSpace(m[0]);
    assert TrimStart(m) == m;
    assert m[1..] == t;
  }

  lemma {:induction false} DigitPrefixOf(d: string, rest: string)
    requires AllDigits(d) && (rest == [] || !IsDigit(rest[0]))
    ensures DigitPrefix(d + rest) == d
    decreases |d|
  {
    if d == [] {
      assert d + rest == rest;
    } else {
      assert (d + rest)[1..] == d[1..] + rest;
      DigitPrefixOf(d[1..], rest);
    }
  }

  /** The payload field for a chapter input: present only when the range is offered and `gate` holds. */
  function ChapterField(offered: bool, gate: bool, field: string): Option<int> {
    if offered && gate && field != "" then ParseInt(field) else None
  }

  /** The form's state. `selectedSite` is the prop; `parse` is `new URL`. */
  datatype Status = Idle | Loading | Success | Errored

  /** `getButtonText`. */
  function ButtonText(status: Status): (r: string)
    ensures r != ""
  {
    match status
    case Loading => "Downloading..."
    case Success => "Downloaded!"
    case Errored => "Try Again"
    case Idle => "Download"
  }

  /** Each status has its own button label. */
  lemma ButtonTextDistinct(a: Status, b: Status)
    ensures ButtonText(a) == ButtonText(b) ==> a == b
  {
    if a != b {
      assert ButtonText(a)[0] != ButtonText(b)[0] || |ButtonText(a)| != |ButtonText(b)|;
    }
  }

  /** What the form reads from the server's reply: `data.status` and `data.message`, or a failed request. */
  datatype Reply = Json(status: Option<string>, message: Option<string>) | NetworkError

  /** The JSON the server sends for each body. */
  function ReplyOf(body: Body): Reply {
    match body
    case Refused(_) => Json(None, None)
    case Completed(_) => Json(Some("success"), Some("Download completed"))
    case Failed(m) => Json(Some("error"), Some(m))
  }

  /** The status and message `handleSubmit` shows once the reply is in. */
  function Outcome(reply: Reply): (r: (Status, string))
    ensures r.0 == Success <==> reply.Json? && reply.status == Some("success")
    ensures r.1 != ""
  {
    match reply
    case NetworkError => (Errored, "Network error - check if backend is running")
    case Json(status, message) =>
      if status == Some("success") then (Success, if Truthy(message) then message.value else "Download completed successfully!")
      else (Errored, if Truthy(message) then message.value else DownloadFailed)
  }

  /**
   * End to end with the server: a completed download shows the server's
   * message; a failure shows the server's message when it has one; the first
   * handler's 400 bodies carry no `message`, so the form shows `Download failed`.
   */
  lemma OutcomeOfServerBodies(body: Body)
    ensures body.Completed? ==> Outcome(ReplyOf(body)) == (Success, "Download completed")
    ensures body.Failed? ==> Outcome(ReplyOf(body)) == (Errored, if body.message != "" then body.message else DownloadFailed)
    ensures body.Refused? ==> Outcome(ReplyOf(body)) == (Errored, DownloadFailed)
  {
  }

  /**
   * The payload `handleSubmit` assembles field by field: the trimmed URL and
   * the lowercased site, then `parseInt` of the chapter inputs, the start only
   * when the range is offered and filled in, the end only after the start.
   */
  method BuildPayload(url: string, active: string, chapterStart: string, chapterEnd: string) returns (request: Request)
    ensures request.url == Some(url) && request.site == Some(Lower(active)) && request.title == None
    ensures request.chapterStart.Some? ==> SupportsChapterRange(Some(active)) && chapterStart != ""
    ensures request.chapterEnd.Some? ==> SupportsChapterRange(Some(active)) && chapterStart != "" && chapterEnd != ""
    ensures request.chapterStart == ChapterField(SupportsChapterRange(Some(active)), true, chapterStart)
    ensures request.chapterEnd == ChapterField(SupportsChapterRange(Some(active)), chapterStart != "", chapterEnd)
  {
    request := Request(Some(url), Some(Lower(active)), None, None, None);
    if SupportsChapterRange(Some(active)) && chapterStart != "" {
      request := request.(chapterStart := ParseInt(chapterStart));
      if chapterEnd != "" {
        request := request.(chapterEnd := ParseInt(chapterEnd));
      }
    }
  }

  /**
   * `handleSubmit`'s two guards and the request it then sends: nothing for a
   * blank URL or when no site is active, otherwise the payload built from the
   * trimmed URL and the active site.
   */
  method SubmitPayload(url: string, detected: Option<string>, selectedSite: Option<string>,
                       chapterStart: string, chapterEnd: string) returns (payload: Option<Request>)
    ensures payload.Some? <==> Trim(url) != "" && Truthy(ActiveSite(detected, selectedSite))
    ensures payload.Some? ==>
      var active := ActiveSite(detected, selectedSite);
      var offered := SupportsChapterRange(active);
      payload.value == Request(Some(Trim(url)), Some(Lower(active.value)), None,
        ChapterField(offered, true, chapterStart),
        ChapterField(offered, chapterStart != "", chapterEnd))
  {
    var trimmed := Trim(url);
    var active := ActiveSite(detected, selectedSite);
    if trimmed == "" || !Truthy(active) {
      payload := None;
    } else {
      var request := BuildPayload(trimmed, active.value, chapterStart, chapterEnd);
      payload := Some(request);
    }
  }

  /**
   * The form's state hooks. `detected` is `detectedSite`, which the component
   * derives from `url` on every render; here it is recomputed by each handler
   * that changes `url`, and `Valid` states that it equals `DetectedSite(parse, url)`.
   */
  class Form {
    const parse: UrlParser
    const selectedSite: Option<string>
    var url: string
    var chapterStart: string
    var chapterEnd: string
    var status: Status
    var message: string
    var detected: Option<string>

    /** `detected` is the site detected from the current URL, as the render computes it. */
    predicate Valid()
      reads this
    {
      detected == DetectedSite(parse, url)
    }

    constructor(parse: UrlParser, selectedSite: Option<string>)
      ensures this.parse == parse && this.selectedSite == selectedSite
      ensures url == "" && chapterStart == "" && chapterEnd == "" && status == Idle && message == ""
      ensures detected == None && Valid()
    {
      this.parse := parse;
      this.selectedSite := selectedSite;
      url := "";
      chapterStart := "";
      chapterEnd := "";
      status := Idle;
      message := "";
      detected := None;
    }

    /** Typing in the URL field; the detected site follows the new text. */
    method EditUrl(text: string)
      modifies this
      ensures url == text && detected == DetectedSite(parse, text) && Valid()
      ensures chapterStart == old(chapterStart) && chapterEnd == old(chapterEnd)
      ensures status == old(status) && message == old(message)
    {
      url := text;
      detected := DetectedSite(parse, text);
    }

    /** Typing in the first-chapter field. */
    method EditChapterStart(text: string)
      requires Valid()
      modifies this
      ensures chapterStart == text && Valid()
      ensures url == old(url) && detected == old(detected) && chapterEnd == old(chapterEnd)
      ensures status == old(status) && message == old(message)
    {
      chapterStart := text;
    }

    /** Typing in the last-chapter field. */
    method EditChapterEnd(text: string)
      requires Valid()
      modifies this
      ensures chapterEnd == text && Valid()
      ensures url == old(url) && detected == old(detected) && chapterStart == old(chapterStart)
      ensures status == old(status) && message == old(message)
    {
      chapterEnd := text;
    }

    /**
     * `handleSubmit` up to the request. A blank URL, then a missing site, stop
     * it with no request and no change; otherwise the form is loading and the
     * payload is returned: the trimmed URL, the active site lowercased, and the
     * chapter fields when the range is offered and filled in.
     */
    method Submit() returns (payload: Option<Request>)
      requires Valid()
      modifies this
      ensures url == old(url) && detected == old(detected) && Valid()
      ensures chapterStart == old(chapterStart) && chapterEnd == old(chapterEnd)
      ensures payload.Some? <==> Trim(url) != "" && Truthy(ActiveSite(detected, selectedSite))
      ensures payload.None? ==> status == old(status) && message == old(message)
      ensures payload.Some? ==>
        var active := ActiveSite(detected, selectedSite);
        var offered := SupportsChapterRange(active);
        status == Loading && message == "" &&
        payload.value == Request(Some(Trim(url)), Some(Lower(active.value)), None,
          ChapterField(offered, true, chapterStart),
          ChapterField(offered, chapterStart != "", chapterEnd))
    {
      payload := SubmitPayload(url, detected, selectedSite, chapterStart, chapterEnd);
      if payload.Some? {
        status := Loading;
        message := "";
      }
    }

    /** `handleSubmit` after the reply: the status and message it shows; the fields stay for now. */
    method Finish(reply: Reply)
      requires Valid()
      modifies this
      ensures (status, message) == Outcome(reply)
      ensures url == old(url) && detected == old(detected) && Valid()
      ensures chapterStart == old(chapterStart) && chapterEnd == old(chapterEnd)
    {
      match reply {
        case NetworkError =>
          status, message := Errored, "Network error - check if backend is running";
        case Json(replyStatus, replyMessage) =>
          if replyStatus == Some("success") {
            status := Success;
            message := if replyMessage.Some? && replyMessage.value != "" then replyMessage.value
                       else "Download completed successfully!";
          } else {
            status := Errored;
            message := if replyMessage.Some? && replyMessage.value != "" then replyMessage.value else DownloadFailed;
          }
      }
    }

    /** The reset three seconds after a success. */
    method ResetAfterSuccess()
      modifies this
      ensures url == "" && chapterStart == "" && chapterEnd == "" && status == Idle && message == ""
      ensures detected == None && Valid()
    {
      url, chapterStart, chapterEnd, status, message := "", "", "", Idle, "";
      detected := None;
    }
  }
}
