/**
 * `send_slack_alert`: turns one status change into the Slack message that is posted to
 * the webhook. The HTTP post itself is not modelled; the result is the request that
 * would be sent, or `None` when no webhook is configured.
 */
module Notifier {
  import opened Wrappers
  import opened AsciiText

  /** The arguments of one `send_slack_alert(location, component_name, status)` call. */
  datatype Alert = Alert(location: string, componentName: string, status: string)

  datatype Field = Field(title: string, value: string, short: bool)
  datatype Attachment = Attachment(color: string, fields: seq<Field>, footer: string, ts: int)
  datatype Payload = Payload(text: string, attachments: seq<Attachment>)

  /** A JSON post to `url` of the message for `alert` stamped `ts`; the message itself is
      `Body()`, so that a request can be compared without building its payload. */
  datatype Request = Request(url: string, alert: Alert, ts: int)
  {
    function Body(): Payload {
      BuildPayload(alert, ts)
    }
  }

  /** `STATUS_LABEL` */
  const StatusLabel: map<string, string> := map[
    "operational" := "Operational",
    "partial_outage" := "Partially Re-routed",
    "major_outage" := "Re-routed",
    "degraded_performance" := "Degraded Performance",
    "under_maintenance" := "Under Maintenance"
  ]

  /** `STATUS_EMOJI` */
  const StatusEmoji: map<string, string> := map[
    "operational" := ":white_check_mark:",
    "partial_outage" := ":warning:",
    "major_outage" := ":exclamation::exclamation::exclamation:",
    "degraded_performance" := ":zap:",
    "under_maintenance" := ":construction:"
  ]

  /** The marker used for a status the table does not know. */
  const UnknownEmoji: string := ":question:"

  /** The five statuses the status page documents. */
  const KnownStatuses: set<string> :=
    {"operational", "partial_outage", "major_outage", "degraded_performance", "under_maintenance"}

  /** `STATUS_LABEL.get(status, status)` */
  function Label(status: string): (r: string)
    ensures status in StatusLabel ==> r == StatusLabel[status]
    ensures status !in StatusLabel ==> r == status
  {
    if status in StatusLabel then StatusLabel[status] else status
  }

  /** `STATUS_EMOJI.get(status, ":question:")` */
  function Emoji(status: string): (r: string)
    ensures status in StatusEmoji ==> r == StatusEmoji[status]
    ensures status !in StatusEmoji ==> r == UnknownEmoji
  {
    if status in StatusEmoji then StatusEmoji[status] else UnknownEmoji
  }

  /** The attachment colour: two explicit branches over a default of "good". */
  function Color(status: string): string {
    if status in ["partial_outage", "under_maintenance"] then "warning"
    else if status in ["major_outage", "degraded_performance"] then "danger"
    else "good"
  }

  /** The text of the Status field: `f"{emoji} {label}"`. */
  function StatusText(status: string): string {
    Emoji(status) + " " + Label(status)
  }

  /** The message body; `ts` stands for `int(time.time())` at the moment of sending. */
  function BuildPayload(a: Alert, ts: int): Payload {
    Payload(":earth_asia: *Cloudflare Status Update*", [
      Attachment(Color(a.status), [
        Field("Location", TitleCase(a.location), true),
        Field("Component", a.componentName, true),
        Field("Status", StatusText(a.status), true)
      ], "Cloudflare Monitor", ts)
    ])
  }

  /** `send_slack_alert`: nothing is sent when the webhook is unset or empty (Python's
      `not SLACK_WEBHOOK_URL`); otherwise one post of the payload to the webhook. */
  function SlackAlert(webhook: Option<string>, a: Alert, ts: int): (r: Option<Request>)
    ensures r.None? <==> webhook.None? || webhook.value == ""
    ensures r.Some? ==> r.value == Request(webhook.value, a, ts)
  {
    if webhook.None? || webhook.value == "" then None
    else Some(Request(webhook.value, a, ts))
  }

  // ---------------------------------------------------------------------------
  // Properties
  // ---------------------------------------------------------------------------

  /** The colour bands: "warning" exactly for the two partial states, "danger" exactly for
      the two severe ones, "good" for everything else. */
  lemma ColorBands(status: string)
    ensures Color(status) == "warning" <==> status == "partial_outage" || status == "under_maintenance"
    ensures Color(status) == "danger" <==> status == "major_outage" || status == "degraded_performance"
    ensures Color(status) == "good" <==> status !in KnownStatuses - {"operational"}
  {
  }

  /** The message carries one attachment with the status colour and the sending time, and
      exactly three short fields: the title-cased location, the component and the status. */
  lemma PayloadShape(a: Alert, ts: int)
    ensures var p := BuildPayload(a, ts);
            |p.attachments| == 1
            && p.attachments[0].color == Color(a.status) && p.attachments[0].ts == ts
            && |p.attachments[0].fields| == 3
            && (forall f :: f in p.attachments[0].fields ==> f.short)
            && p.attachments[0].fields[0] == Field("Location", TitleCase(a.location), true)
            && p.attachments[0].fields[1] == Field("Component", a.componentName, true)
            && p.attachments[0].fields[2] == Field("Status", StatusText(a.status), true)
  {
  }

  /** The label and emoji tables cover the same statuses: the five known ones. */
  lemma TablesAgree()
    ensures StatusLabel.Keys == KnownStatuses && StatusEmoji.Keys == KnownStatuses
  {
  }

  /** A status outside the tables is shown as itself, with the question-mark marker and the
      colour "good". */
  lemma UnknownStatusFallback(status: string)
    requires status !in KnownStatuses
    ensures Label(status) == status && Emoji(status) == UnknownEmoji && Color(status) == "good"
    ensures StatusText(status) == ":question: " + status
  {
  }

  /** The status a component has when the feed gives none renders as the fallback. */
  lemma MissingStatusRendering()
    ensures StatusText("unknown") == ":question: unknown" && Color("unknown") == "good"
  {
    assert "unknown" !in KnownStatuses;
  }

  /** The first three characters of the Status field of each known status. */
  lemma KnownStatusTextStart(k: string)
    requires k in KnownStatuses
    ensures var p := StatusText(k)[..3];
            (k == "operational" ==> p == ":wh") && (k == "partial_outage" ==> p == ":wa")
            && (k == "major_outage" ==> p == ":ex") && (k == "degraded_performance" ==> p == ":za")
            && (k == "under_maintenance" ==> p == ":co")
  {
    var e := Emoji(k);
    if k == "operational" {
      assert e == ":white_check_mark:";
      assert e[0] == ':' && e[1] == 'w' && e[2] == 'h';
      assert e[..3] == ":wh";
    } else if k == "partial_outage" {
      assert e == ":warning:";
      assert e[0] == ':' && e[1] == 'w' && e[2] == 'a';
      assert e[..3] == ":wa";
    } else if k == "major_outage" {
      assert e == ":exclamation::exclamation::exclamation:";
      assert e[0] == ':' && e[1] == 'e' && e[2] == 'x';
      assert e[..3] == ":ex";
    } else if k == "degraded_performance" {
      assert e == ":zap:";
      assert e[0] == ':' && e[1] == 'z' && e[2] == 'a';
      assert e[..3] == ":za";
    } else {
      assert e == ":construction:";
      assert e[0] == ':' && e[1] == 'c' && e[2] == 'o';
      assert e[..3] == ":co";
    }
    PrefixOfConcat(e + " ", Label(k));
    PrefixOfConcat(e, " ");
  }

  lemma PrefixOfConcat(a: string, b: string)
    requires |a| >= 3
    ensures (a + b)[..3] == a[..3]
  {
  }

  /** The Status field identifies the status: different statuses never render alike. */
  lemma StatusTextInjective(s1: string, s2: string)
    requires StatusText(s1) == StatusText(s2)
    ensures s1 == s2
  {
    if s1 !in KnownStatuses && s2 !in KnownStatuses {
      var q := ":question: ";
      assert StatusText(s1) == q + s1 && StatusText(s2) == q + s2;
      assert s1 == (q + s1)[|q|..] && s2 == (q + s2)[|q|..];
    } else if s1 in KnownStatuses && s2 in KnownStatuses {
      KnownStatusTextStart(s1);
      KnownStatusTextStart(s2);
    } else if s1 in KnownStatuses {
      KnownUnknownApart(s1, s2);
    } else {
      KnownUnknownApart(s2, s1);
    }
  }

  /** A known status and an unknown one differ in the first three characters. */
  lemma KnownUnknownApart(k: string, u: string)
    requires k in KnownStatuses && u !in KnownStatuses
    ensures StatusText(k)[..3] != StatusText(u)[..3]
  {
    KnownStatusTextStart(k);
    PrefixOfConcat(UnknownEmoji + " ", u);
    PrefixOfConcat(UnknownEmoji, " ");
    var p := UnknownEmoji[..3];
    assert p[1] == 'q';
  }

  /** The Location field is the target title-cased; lower-casing it gives the target back. */
  lemma LocationFieldRoundTrip(a: Alert, ts: int)
    requires IsLowerCase(a.location)
    ensures Lower(BuildPayload(a, ts).attachments[0].fields[0].value) == a.location
  {
    TitleCaseRoundTrip(a.location);
  }

  /** The Location field of a "hong kong" alert reads "Hong Kong". */
  lemma TitleCaseExample()
    ensures TitleCase("hong kong") == "Hong Kong"
  {
  }
}
