/**
 * The two selection rules the mail fetcher applies to a message returned by the Gmail API: which
 * header gives the subject, and which MIME part gives the body text.
 *
 * A message payload is a JSON dictionary; a key the dictionary may lack is an `Option` here, and
 * `dict.get(key, default)` is `Get...` with that default. The base64url + UTF-8 decoder is a
 * parameter: `decode(data)` is `None` exactly when the decoder raises.
 */
module GmailService {
  import opened Wrappers

  datatype Header = Header(name: string, value: string)

  /** The `body` dictionary of a payload or a part; only its `data` key is read. */
  datatype Body = Body(data: Option<string>)

  datatype Part = Part(mimeType: Option<string>, body: Option<Body>)

  datatype Payload = Payload(headers: Option<seq<Header>>, body: Option<Body>, parts: Option<seq<Part>>)

  const NoSubject := "No Subject"
  const DecodeError := "[Error decoding email body]"
  const PlainText := "text/plain"
  const HtmlText := "text/html"

  function GetOr<T>(o: Option<T>, default: T): T {
    match o
    case Some(x) => x
    case None => default
  }

  /** `x.get('body', {}).get('data', "")`. */
  function DataOf(b: Option<Body>): string {
    match b
    case Some(Body(d)) => GetOr(d, "")
    case None => ""
  }

  function MimeOf(p: Part): string {
    GetOr(p.mimeType, "")
  }

  // ---------------------------------------------------------------------------------------------
  // The subject rule: `next((h['value'] for h in headers if h['name'] == 'Subject'), "No Subject")`.

  /** The value of the first header named exactly `Subject`, or "No Subject" when no header has that name. */
  function Subject(headers: seq<Header>): (r: string)
    ensures (forall i | 0 <= i < |headers| :: headers[i].name != "Subject") ==> r == NoSubject
    ensures (exists i | 0 <= i < |headers| :: headers[i].name == "Subject") ==>
      exists i | 0 <= i < |headers| :: headers[i].name == "Subject" && r == headers[i].value
        && forall j | 0 <= j < i :: headers[j].name != "Subject"
  {
    if headers == [] then NoSubject
    else if headers[0].name == "Subject" then headers[0].value
    else Subject(headers[1..])
  }

  /**
   * The subject of a payload: the value of its first header named exactly `Subject`, or
   * "No Subject" when it has none; a payload without a `headers` key has no headers.
   */
  function PayloadSubject(p: Payload): (r: string)
    ensures p.headers.None? ==> r == NoSubject
    ensures var hs := GetOr(p.headers, []);
      (forall i | 0 <= i < |hs| :: hs[i].name != "Subject") ==> r == NoSubject
    ensures var hs := GetOr(p.headers, []);
      forall i | 0 <= i < |hs| && hs[i].name == "Subject" && (forall j | 0 <= j < i :: hs[j].name != "Subject") ::
        r == hs[i].value
  {
    Subject(GetOr(p.headers, []))
  }

  /** Headers after the first `Subject` header are never consulted. */
  lemma {:induction false} SubjectIgnoresLater(headers: seq<Header>, later: seq<Header>)
    requires exists i | 0 <= i < |headers| :: headers[i].name == "Subject"
    ensures Subject(headers + later) == Subject(headers)
  {
    if headers[0].name != "Subject" {
      assert (headers + later)[1..] == headers[1..] + later;
      var i :| 0 <= i < |headers| && headers[i].name == "Subject";
      assert headers[1..][i - 1].name == "Subject";
      SubjectIgnoresLater(headers[1..], later);
    }
  }

  /** Headers with other names never change the subject, wherever they stand. */
  lemma {:induction false} SubjectIgnoresOthers(front: seq<Header>, h: Header, back: seq<Header>)
    requires h.name != "Subject"
    ensures Subject(front + [h] + back) == Subject(front + back)
  {
    var whole := front + [h] + back;
    if front == [] {
      assert whole[0] == h && whole[1..] == back;
      assert front + back == back;
    } else if front[0].name != "Subject" {
      assert whole[0] == front[0] && whole[1..] == front[1..] + [h] + back;
      assert (front + back)[0] == front[0] && (front + back)[1..] == front[1..] + back;
      SubjectIgnoresOthers(front[1..], h, back);
    } else {
      assert whole[0] == front[0] && (front + back)[0] == front[0];
    }
  }

  // ---------------------------------------------------------------------------------------------
  // The body rule.

  /** Part `i` is the first part of type `mime`. */
  predicate FirstAt(parts: seq<Part>, i: int, mime: string) {
    0 <= i < |parts| && MimeOf(parts[i]) == mime && forall j | 0 <= j < i :: MimeOf(parts[j]) != mime
  }

  /** Part `i` is the last part of type `mime`. */
  predicate LastAt(parts: seq<Part>, i: int, mime: string) {
    0 <= i < |parts| && MimeOf(parts[i]) == mime && forall j | i < j < |parts| :: MimeOf(parts[j]) != mime
  }

  predicate NoneOf(parts: seq<Part>, mime: string) {
    forall i | 0 <= i < |parts| :: MimeOf(parts[i]) != mime
  }

  /** The position of the first part with the given MIME type. */
  function FirstOfType(parts: seq<Part>, mime: string): (r: Option<nat>)
    ensures r.None? <==> NoneOf(parts, mime)
    ensures r.Some? ==> FirstAt(parts, r.value, mime)
  {
    if parts == [] then None
    else if MimeOf(parts[0]) == mime then Some(0)
    else match FirstOfType(parts[1..], mime)
      case Some(i) => Some(i + 1)
      case None => None
  }

  /** The position of the last part with the given MIME type. */
  function LastOfType(parts: seq<Part>, mime: string): (r: Option<nat>)
    ensures r.None? <==> NoneOf(parts, mime)
    ensures r.Some? ==> LastAt(parts, r.value, mime)
  {
    if parts == [] then None
    else if MimeOf(parts[|parts| - 1]) == mime then Some(|parts| - 1)
    else LastOfType(parts[..|parts| - 1], mime)
  }

  /** The data of the last `text/html` part, or "" when there is none. */
  function LastHtmlData(parts: seq<Part>): string {
    match LastOfType(parts, HtmlText)
    case Some(j) => DataOf(parts[j].body)
    case None => ""
  }

  /**
   * The encoded data the body is taken from: the payload's own body when it has no parts; else the
   * first `text/plain` part, whatever its data and whatever came before it; else the last
   * `text/html` part; else nothing.
   */
  function SelectedData(p: Payload): (r: string)
    ensures var parts := GetOr(p.parts, []);
      parts == [] ==> r == DataOf(p.body)
    ensures var parts := GetOr(p.parts, []);
      forall i | FirstAt(parts, i, PlainText) :: r == DataOf(parts[i].body)
    ensures var parts := GetOr(p.parts, []);
      NoneOf(parts, PlainText) ==> forall j | LastAt(parts, j, HtmlText) :: r == DataOf(parts[j].body)
    ensures var parts := GetOr(p.parts, []);
      parts != [] && NoneOf(parts, PlainText) && NoneOf(parts, HtmlText) ==> r == ""
  {
    var parts := GetOr(p.parts, []);
    if parts == [] then DataOf(p.body)
    else match FirstOfType(parts, PlainText)
      case Some(i) => DataOf(parts[i].body)
      case None => LastHtmlData(parts)
  }

  /** Parts after the first `text/plain` part are never consulted. */
  lemma LaterPartsIgnored(p: Payload, i: int, extra: seq<Part>)
    requires FirstAt(GetOr(p.parts, []), i, PlainText)
    ensures SelectedData(p.(parts := Some(GetOr(p.parts, []) + extra))) == SelectedData(p)
  {
    var parts := GetOr(p.parts, []);
    var q := parts + extra;
    assert FirstAt(q, i, PlainText) by {
      assert forall j | 0 <= j <= i :: q[j] == parts[j];
    }
  }

  lemma FirstAtUnique(parts: seq<Part>, a: int, b: int, mime: string)
    requires FirstAt(parts, a, mime) && FirstAt(parts, b, mime)
    ensures a == b
  {
  }

  lemma LastAtUnique(parts: seq<Part>, a: int, b: int, mime: string)
    requires LastAt(parts, a, mime) && LastAt(parts, b, mime)
    ensures a == b
  {
  }

  /** Inserting a part of another type keeps which part is the first of type `mime`. */
  lemma InsertKeepsFirst(parts: seq<Part>, k: int, x: Part, mime: string)
    requires 0 <= k <= |parts| && MimeOf(x) != mime
    ensures var q := parts[..k] + [x] + parts[k..];
      FirstOfType(q, mime).None? == FirstOfType(parts, mime).None?
      && (FirstOfType(parts, mime).Some? ==> q[FirstOfType(q, mime).value] == parts[FirstOfType(parts, mime).value])
  {
    var q := parts[..k] + [x] + parts[k..];
    assert forall i | 0 <= i < k :: q[i] == parts[i];
    assert forall i | k <= i < |parts| :: q[i + 1] == parts[i];
    match FirstOfType(parts, mime)
    case Some(i) =>
      var i' := if i < k then i else i + 1;
      assert FirstAt(q, i', mime);
      FirstAtUnique(q, i', FirstOfType(q, mime).value, mime);
    case None =>
      assert NoneOf(q, mime);
  }

  /** Inserting a part of another type keeps which part is the last of type `mime`. */
  lemma InsertKeepsLast(parts: seq<Part>, k: int, x: Part, mime: string)
    requires 0 <= k <= |parts| && MimeOf(x) != mime
    ensures var q := parts[..k] + [x] + parts[k..];
      LastOfType(q, mime).None? == LastOfType(parts, mime).None?
      && (LastOfType(parts, mime).Some? ==> q[LastOfType(q, mime).value] == parts[LastOfType(parts, mime).value])
  {
    var q := parts[..k] + [x] + parts[k..];
    assert forall i | 0 <= i < k :: q[i] == parts[i];
    assert forall i | k <= i < |parts| :: q[i + 1] == parts[i];
    match LastOfType(parts, mime)
    case Some(i) =>
      var i' := if i < k then i else i + 1;
      assert LastAt(q, i', mime);
      LastAtUnique(q, i', LastOfType(q, mime).value, mime);
    case None =>
      assert NoneOf(q, mime);
  }

  /** A part of any other MIME type never changes the selection, wherever it is inserted among the parts. */
  lemma OtherPartIgnored(p: Payload, k: int, x: Part)
    requires GetOr(p.parts, []) != [] && 0 <= k <= |GetOr(p.parts, [])|
    requires MimeOf(x) != PlainText && MimeOf(x) != HtmlText
    ensures var parts := GetOr(p.parts, []);
      SelectedData(p.(parts := Some(parts[..k] + [x] + parts[k..]))) == SelectedData(p)
  {
    var parts := GetOr(p.parts, []);
    InsertKeepsFirst(parts, k, x, PlainText);
    InsertKeepsLast(parts, k, x, HtmlText);
  }

  /**
   * `get_email_body`: scans the parts as the source does, with the `break` on the first plain-text
   * part, then decodes what it selected unless that is empty.
   */
  method GetEmailBody(payload: Payload, decode: string -> Option<string>) returns (body: string)
    ensures SelectedData(payload) == "" ==> body == ""
    ensures SelectedData(payload) != "" && decode(SelectedData(payload)).None? ==> body == DecodeError
    ensures SelectedData(payload) != "" && decode(SelectedData(payload)).Some? ==>
      body == decode(SelectedData(payload)).value
  {
    body := "";
    var parts := GetOr(payload.parts, []);
    if parts == [] {
      body := DataOf(payload.body);
    } else {
      var k := 0;
      while k < |parts|
        invariant 0 <= k <= |parts|
        invariant forall i | 0 <= i < k :: MimeOf(parts[i]) != PlainText
        invariant body == LastHtmlData(parts[..k])
      {
        var mime := MimeOf(parts[k]);
        if mime == PlainText {
          body := DataOf(parts[k].body);
          break;
        } else if mime == HtmlText {
          body := DataOf(parts[k].body);
        }
        assert parts[..k + 1][..k] == parts[..k];
        k := k + 1;
      }
      assert parts[..|parts|] == parts;
    }
    if body != "" {
      match decode(body)
      case Some(text) => body := text;
      case None => body := DecodeError;
    }
  }
}
